/**
 * Python `str` operations used throughout the code base, on `seq<char>`.
 * Character classes are ASCII (see README, "Left out").
 */
module Text {
  import opened Wrappers

  predicate IsDigit(c: char) { '0' <= c <= '9' }
  predicate IsAsciiLetter(c: char) { ('a' <= c <= 'z') || ('A' <= c <= 'Z') }
  /** Python's `\w` on ASCII text. */
  predicate IsWordChar(c: char) { IsDigit(c) || IsAsciiLetter(c) || c == '_' }
  /**
   * The ASCII characters Python's `str.split()` and `str.strip()` treat as white space: space, tab, line feed,
   * carriage return, vertical tab, form feed and the four separators U+001C to U+001F.
   */
  predicate IsSpace(c: char)
  {
    c == ' ' || c == '\t' || c == '\n' || c == '\r' || c as int == 11 || c as int == 12 || 28 <= c as int <= 31
  }

  predicate AllDigits(s: string) { forall i :: 0 <= i < |s| ==> IsDigit(s[i]) }

  function LowerChar(c: char): char { if 'A' <= c <= 'Z' then (c as int + 32) as char else c }
  function UpperChar(c: char): char { if 'a' <= c <= 'z' then (c as int - 32) as char else c }

  /** `s.lower()` */
  function Lower(s: string): (r: string)
    ensures |r| == |s| && forall i :: 0 <= i < |s| ==> r[i] == LowerChar(s[i])
  {
    if s == [] then [] else [LowerChar(s[0])] + Lower(s[1..])
  }

  /** `s.upper()` */
  function Upper(s: string): (r: string)
    ensures |r| == |s| && forall i :: 0 <= i < |s| ==> r[i] == UpperChar(s[i])
  {
    if s == [] then [] else [UpperChar(s[0])] + Upper(s[1..])
  }

  /** Concatenation regroups freely; stated for whole strings, so that no literal is unfolded. */
  lemma AppendAssociative(a: string, b: string, c: string)
    ensures (a + b) + c == a + (b + c)
  {
  }

  predicate StartsWith(s: string, p: string) { |p| <= |s| && s[..|p|] == p }
  predicate EndsWith(s: string, p: string) { |p| <= |s| && s[|s| - |p|..] == p }

  /** `s.replace(a, b)` for single characters: every `a` becomes `b`. */
  function SwapChar(s: string, a: char, b: char): (r: string)
    ensures |r| == |s| && forall i :: 0 <= i < |s| ==> r[i] == (if s[i] == a then b else s[i])
  {
    if s == [] then [] else [if s[0] == a then b else s[0]] + SwapChar(s[1..], a, b)
  }

  /** `s.removeprefix(p)` */
  function RemovePrefix(s: string, p: string): string
  {
    if StartsWith(s, p) then s[|p|..] else s
  }

  /** `s.removesuffix(p)` */
  function RemoveSuffix(s: string, p: string): (r: string)
    ensures EndsWith(s, p) ==> r + p == s
    ensures !EndsWith(s, p) ==> r == s
  {
    if EndsWith(s, p) then s[..|s| - |p|] else s
  }

  predicate OccursAt(s: string, t: string, j: int)
  {
    0 <= j && j + |t| <= |s| && s[j..j + |t|] == t
  }

  /** `s.find(t)` as an optional index: the leftmost occurrence of `t`. */
  function IndexOf(s: string, t: string): (r: Option<nat>)
    ensures r.Some? ==> OccursAt(s, t, r.value)
    ensures r.Some? ==> forall j :: 0 <= j < r.value ==> !OccursAt(s, t, j)
    ensures r.None? ==> forall j :: !OccursAt(s, t, j)
    decreases |s|
  {
    if |s| < |t| then None
    else if s[..|t|] == t then Some(0)
    else
      match IndexOf(s[1..], t)
      case None =>
        OccursShift(s, t);
        None
      case Some(i) =>
        OccursShift(s, t);
        Some(i + 1)
  }

  /** An occurrence after the first position is one in the rest of the string, one position earlier. */
  lemma OccursShift(s: string, t: string)
    requires s != []
    ensures forall j :: j > 0 ==> (OccursAt(s, t, j) <==> OccursAt(s[1..], t, j - 1))
  {
    forall j | j > 0
      ensures OccursAt(s, t, j) <==> OccursAt(s[1..], t, j - 1)
    {
      if j + |t| <= |s| {
        var a, b := s[j..j + |t|], s[1..][j - 1..j - 1 + |t|];
        assert |a| == |b| && forall k :: 0 <= k < |a| ==> a[k] == s[j + k] == b[k];
      }
    }
  }

  /** `t in s` */
  predicate Contains(s: string, t: string) { IndexOf(s, t).Some? }

  /** `s.rfind(c)` for a single character, as an optional index. */
  function LastIndexOf(s: string, c: char): (r: Option<nat>)
    ensures r.Some? ==> r.value < |s| && s[r.value] == c && forall j :: r.value < j < |s| ==> s[j] != c
    ensures r.None? ==> forall j :: 0 <= j < |s| ==> s[j] != c
  {
    if s == [] then None
    else if s[|s| - 1] == c then Some(|s| - 1)
    else LastIndexOf(s[..|s| - 1], c)
  }

  /** `sep.join(parts)` */
  function Join(parts: seq<string>, sep: string): string
  {
    if |parts| == 0 then ""
    else if |parts| == 1 then parts[0]
    else parts[0] + sep + Join(parts[1..], sep)
  }

  /** `s.split(sep)` for a non-empty separator. */
  function Split(s: string, sep: string): (parts: seq<string>)
    requires |sep| > 0
    ensures |parts| >= 1
    decreases |s|
  {
    match IndexOf(s, sep)
    case None => [s]
    case Some(i) => [s[..i]] + Split(s[i + |sep|..], sep)
  }

  /** Joining the parts of a split with the same separator gives back the string. */
  lemma {:induction false} JoinSplit(s: string, sep: string)
    requires |sep| > 0
    ensures Join(Split(s, sep), sep) == s
    decreases |s|
  {
    match IndexOf(s, sep)
    case None =>
    case Some(i) =>
      JoinSplit(s[i + |sep|..], sep);
      JoinSplitStep(s, sep, i);
  }

  lemma JoinSplitStep(s: string, sep: string, i: nat)
    requires |sep| > 0 && IndexOf(s, sep) == Some(i)
    ensures Join(Split(s, sep), sep) == s[..i] + sep + Join(Split(s[i + |sep|..], sep), sep)
    ensures s == s[..i] + sep + s[i + |sep|..]
  {
    SplitAt(s, sep, i);
    JoinCons(s[..i], Split(s[i + |sep|..], sep), sep);
    CutAround(s, sep, i);
  }

  /** A split at the first occurrence of the separator, at `i`. */
  lemma SplitAt(s: string, sep: string, i: nat)
    requires |sep| > 0 && IndexOf(s, sep) == Some(i)
    ensures Split(s, sep) == [s[..i]] + Split(s[i + |sep|..], sep)
  {
  }

  /** A string is the text before an occurrence, the occurrence, and the text after it. */
  lemma CutAround(s: string, sep: string, i: nat)
    requires OccursAt(s, sep, i)
    ensures s == s[..i] + sep + s[i + |sep|..]
  {
    ThreeParts(s, i, i + |sep|);
  }

  /** Cutting a string at two positions and putting the pieces back gives the string. */
  lemma ThreeParts(s: string, i: nat, j: nat)
    requires i <= j <= |s|
    ensures s == s[..i] + s[i..j] + s[j..]
  {
    assert s[..j] == s[..i] + s[i..j];
    assert s == s[..j] + s[j..];
  }

  /** Joining a part in front of at least one other puts the separator between them. */
  lemma JoinCons(x: string, xs: seq<string>, sep: string)
    requires |xs| >= 1
    ensures Join([x] + xs, sep) == x + sep + Join(xs, sep)
  {
    assert ([x] + xs)[1..] == xs;
  }

  /** No part of a split contains the separator. */
  lemma {:induction false} SplitPartsFree(s: string, sep: string)
    requires |sep| > 0
    ensures forall k :: 0 <= k < |Split(s, sep)| ==> !Contains(Split(s, sep)[k], sep)
    decreases |s|
  {
    match IndexOf(s, sep)
    case None =>
    case Some(i) =>
      var t := s[i + |sep|..];
      var rest := Split(t, sep);
      SplitPartsFree(t, sep);
      SplitAt(s, sep, i);
      BeforeFirstFree(s, sep, i);
      var whole := Split(s, sep);
      assert whole == [s[..i]] + rest;
      forall k | 0 <= k < |whole| ensures !Contains(whole[k], sep) {
        if k > 0 {
          assert whole[k] == rest[k - 1];
        }
      }
  }

  /** The text before the first occurrence holds none. */
  lemma BeforeFirstFree(s: string, sep: string, i: nat)
    requires |sep| > 0 && IndexOf(s, sep) == Some(i)
    ensures !Contains(s[..i], sep)
  {
    forall j | OccursAt(s[..i], sep, j) ensures OccursAt(s, sep, j) { assert s[..i][j..j + |sep|] == s[j..j + |sep|]; }
  }

  /** `c not in s` for a single character. */
  predicate Free(s: string, c: char) { forall i :: 0 <= i < |s| ==> s[i] != c }

  /** The leftmost occurrence of a character is the first position holding it. */
  lemma IndexOfChar(s: string, c: char, i: nat)
    requires i < |s| && s[i] == c && Free(s[..i], c)
    ensures IndexOf(s, [c]) == Some(i)
  {
    assert OccursAt(s, [c], i);
    assert forall j :: 0 <= j < i && OccursAt(s, [c], j) ==> s[..i][j] == s[j..j + 1][0];
  }

  lemma IndexOfFree(s: string, c: char)
    requires Free(s, c)
    ensures IndexOf(s, [c]) == None
  {
    assert forall j :: OccursAt(s, [c], j) ==> s[j..j + 1][0] == s[j];
  }

  /** The leftmost occurrence of `t` is at `i` when nothing before `i` holds its first character. */
  lemma IndexOfAt(s: string, t: string, i: nat)
    requires |t| > 0 && OccursAt(s, t, i) && Free(s[..i], t[0])
    ensures IndexOf(s, t) == Some(i)
  {
    assert forall j :: 0 <= j < i && OccursAt(s, t, j) ==> s[..i][j] == s[j..j + |t|][0];
  }

  /** Replacing a suffix whose first character the rest lacks leaves the rest. */
  lemma ReplaceSuffix(s: string, t: string, rep: string)
    requires |t| > 0 && Free(s, t[0])
    ensures ReplaceFirst(s + t, t, rep) == s + rep
  {
    var u := s + t;
    assert u[..|s|] == s && u[|s|..|s| + |t|] == t && u[|s| + |t|..] == [];
    IndexOfAt(u, t, |s|);
  }

  /** The leftmost occurrence of a character: it holds the character and nothing before it does. */
  lemma IndexOfCharFirst(s: string, c: char, i: nat)
    requires IndexOf(s, [c]) == Some(i)
    ensures i < |s| && s[i] == c && Free(s[..i], c)
  {
    FirstOccurrence(s, c, i);
  }

  lemma FirstOccurrence(s: string, c: char, i: nat)
    requires OccursAt(s, [c], i) && forall j :: 0 <= j < i ==> !OccursAt(s, [c], j)
    ensures i < |s| && s[i] == c && Free(s[..i], c)
  {
    assert s[i..i + 1][0] == s[i];
    forall j | 0 <= j < i
      ensures s[..i][j] != c
    {
      assert !OccursAt(s, [c], j);
      assert s[j..j + 1] == [s[j]];
    }
  }

  /** A string that does not contain a character is free of it. */
  lemma FreeNotContains(s: string, c: char)
    requires !Contains(s, [c])
    ensures Free(s, c)
  {
    forall i | 0 <= i < |s|
      ensures s[i] != c
    {
      assert !OccursAt(s, [c], i);
      assert s[i..i + 1] == [s[i]];
    }
  }

  /** A string without the first character of `t` does not contain `t`. */
  lemma NotContainsFree(s: string, t: string)
    requires |t| > 0 && Free(s, t[0])
    ensures !Contains(s, t)
  {
    assert forall j :: OccursAt(s, t, j) ==> s[j..j + |t|][0] == s[j];
  }

  /** Splitting a join on a one-character separator that no part contains gives back the parts. */
  lemma {:induction false} SplitJoin(parts: seq<string>, c: char)
    requires |parts| >= 1 && forall k :: 0 <= k < |parts| ==> Free(parts[k], c)
    ensures Split(Join(parts, [c]), [c]) == parts
    decreases |parts|
  {
    if |parts| == 1 {
      IndexOfFree(parts[0], c);
    } else {
      var s := Join(parts, [c]);
      var rest := Join(parts[1..], [c]);
      assert s == parts[0] + [c] + rest;
      assert s[..|parts[0]|] == parts[0];
      IndexOfChar(s, c, |parts[0]|);
      assert s[|parts[0]| + 1..] == rest;
      SplitJoin(parts[1..], c);
    }
  }

  /** Splitting a join gives back the parts when no part holds the separator's first character. */
  lemma {:induction false} SplitJoinFree(parts: seq<string>, sep: string)
    requires |sep| > 0 && |parts| >= 1 && forall k :: 0 <= k < |parts| ==> Free(parts[k], sep[0])
    ensures Split(Join(parts, sep), sep) == parts
    decreases |parts|
  {
    if |parts| == 1 {
      NotContainsFree(parts[0], sep);
    } else {
      var s := Join(parts, sep);
      var rest := Join(parts[1..], sep);
      assert s == parts[0] + sep + rest;
      assert s[..|parts[0]|] == parts[0];
      assert OccursAt(s, sep, |parts[0]|);
      IndexOfAt(s, sep, |parts[0]|);
      assert s[|parts[0]| + |sep|..] == rest;
      SplitJoinFree(parts[1..], sep);
    }
  }

  /** `s.count(c)` for a single character. */
  function CountChar(s: string, c: char): nat
  {
    if s == [] then 0 else (if s[0] == c then 1 else 0) + CountChar(s[1..], c)
  }

  lemma {:induction false} CountCharAppend(s: string, t: string, c: char)
    ensures CountChar(s + t, c) == CountChar(s, c) + CountChar(t, c)
    decreases |s|
  {
    if s == [] {
      assert s + t == t;
    } else {
      assert (s + t)[1..] == s[1..] + t;
      CountCharAppend(s[1..], t, c);
    }
  }

  lemma {:induction false} CountCharFree(s: string, c: char)
    requires Free(s, c)
    ensures CountChar(s, c) == 0
    decreases |s|
  {
    if s != [] {
      CountCharFree(s[1..], c);
    }
  }

  /** Splitting on a character gives one part more than the string holds of that character. */
  lemma {:induction false} SplitCount(s: string, c: char)
    ensures |Split(s, [c])| == CountChar(s, c) + 1
    decreases |s|
  {
    match IndexOf(s, [c])
    case None =>
      FreeNotContains(s, c);
      CountCharFree(s, c);
    case Some(i) =>
      IndexOfCharFirst(s, c, i);
      SplitCount(s[i + 1..], c);
      assert s == s[..i] + [c] + s[i + 1..];
      CountCharAppend(s[..i] + [c], s[i + 1..], c);
      CountCharAppend(s[..i], [c], c);
      CountCharFree(s[..i], c);
  }

  /** A join of parts free of `c` with a separator free of `c` is free of `c`. */
  lemma {:induction false} JoinFree(parts: seq<string>, sep: string, c: char)
    requires Free(sep, c) && forall k :: 0 <= k < |parts| ==> Free(parts[k], c)
    ensures Free(Join(parts, sep), c)
    decreases |parts|
  {
    if |parts| > 1 {
      JoinFree(parts[1..], sep, c);
    }
  }

  /** The parts of a string free of `c` are free of `c`. */
  lemma {:induction false} SplitFree(s: string, sep: string, c: char)
    requires |sep| > 0 && Free(s, c)
    ensures forall k :: 0 <= k < |Split(s, sep)| ==> Free(Split(s, sep)[k], c)
    decreases |s|
  {
    match IndexOf(s, sep)
    case None =>
    case Some(i) =>
      assert Free(s[..i], c);
      assert Free(s[i + |sep|..], c);
      SplitFree(s[i + |sep|..], sep, c);
  }

  /** The start of the rightmost occurrence of `t` at or before `n`. */
  function LastOccurrenceUpTo(s: string, t: string, n: nat): (r: Option<nat>)
    ensures r.Some? ==> r.value <= n && OccursAt(s, t, r.value) && forall j :: r.value < j <= n ==> !OccursAt(s, t, j)
    ensures r.None? ==> forall j :: 0 <= j <= n ==> !OccursAt(s, t, j)
    decreases n
  {
    if OccursAt(s, t, n) then Some(n)
    else if n == 0 then None
    else LastOccurrenceUpTo(s, t, n - 1)
  }

  /** `s.rfind(t)` as an optional index: the rightmost occurrence of `t`. */
  function LastOccurrence(s: string, t: string): (r: Option<nat>)
    ensures r.Some? ==> OccursAt(s, t, r.value) && forall j :: r.value < j ==> !OccursAt(s, t, j)
    ensures r.None? ==> forall j :: !OccursAt(s, t, j)
  {
    LastOccurrenceUpTo(s, t, |s|)
  }

  /** `s.rsplit(t, 1)[0]`: the text before the rightmost `t`, or all of `s`. */
  function BeforeLast(s: string, t: string): (r: string)
    ensures StartsWith(s, r)
    ensures Contains(s, t) ==> OccursAt(s, t, |r|) && forall j :: |r| < j ==> !OccursAt(s, t, j)
    ensures !Contains(s, t) ==> r == s
  {
    match LastOccurrence(s, t)
    case None => s
    case Some(j) =>
      assert s[..j][..j] == s[..j];
      s[..j]
  }

  /** The text before an occurrence of `t` that no later occurrence follows. */
  lemma BeforeLastAt(s: string, t: string, j: nat)
    requires OccursAt(s, t, j) && forall k :: j < k ==> !OccursAt(s, t, k)
    ensures BeforeLast(s, t) == s[..j]
  {
    assert Contains(s, t);
    var r := BeforeLast(s, t);
    assert |r| == j;
  }

  /** `s.replace(old, new)` */
  function ReplaceAll(s: string, pat: string, rep: string): string
    requires |pat| > 0
  {
    Join(Split(s, pat), rep)
  }

  /** `s.replace(old, new, 1)` */
  function ReplaceFirst(s: string, pat: string, rep: string): (r: string)
    requires |pat| > 0
    ensures !Contains(s, pat) ==> r == s
  {
    match IndexOf(s, pat)
    case None => s
    case Some(i) => s[..i] + rep + s[i + |pat|..]
  }

  /** `s.partition(sep)`: the text before the first `sep`, whether it was found, and the text after it. */
  function Partition(s: string, sep: string): (r: (string, bool, string))
    requires |sep| > 0
    ensures r.1 ==> r.0 + sep + r.2 == s && !Contains(r.0, sep)
    ensures !r.1 ==> r.0 == s && r.2 == "" && !Contains(s, sep)
  {
    match IndexOf(s, sep)
    case None => (s, false, "")
    case Some(i) =>
      assert s[..i] + sep + s[i + |sep|..] == s by { assert s[i..i + |sep|] == sep; }
      assert !Contains(s[..i], sep) by {
        forall j | OccursAt(s[..i], sep, j) ensures OccursAt(s, sep, j) { assert s[..i][j..j + |sep|] == s[j..j + |sep|]; }
      }
      (s[..i], true, s[i + |sep|..])
  }

  /** `s.split(c)[-1]`: the text after the last `c`, or all of `s`. */
  function AfterLast(s: string, c: char): (r: string)
    ensures |r| <= |s| && forall i :: 0 <= i < |r| ==> r[i] != c
    ensures EndsWith(s, r)
    ensures |r| == |s| <==> Free(s, c)
    ensures |r| < |s| ==> s[|s| - |r| - 1] == c
  {
    match LastIndexOf(s, c)
    case None => s
    case Some(i) => s[i + 1..]
  }

  /** A `c`-free suffix that is all of `s` or follows a `c` is the text after the last `c`. */
  lemma AfterLastUnique(s: string, c: char, r: string)
    requires EndsWith(s, r) && Free(r, c)
    requires |r| == |s| || s[|s| - |r| - 1] == c
    ensures r == AfterLast(s, c)
  {
    var a := AfterLast(s, c);
    forall k | |s| - |a| <= k < |s|
      ensures s[k] != c
    {
      assert s[k] == a[k - (|s| - |a|)];
    }
    forall k | |s| - |r| <= k < |s|
      ensures s[k] != c
    {
      assert s[k] == r[k - (|s| - |r|)];
    }
    assert |r| == |a|;
    assert r == s[|s| - |r|..] == a;
  }

  /** `s.split(c)[-1]` and `s.rsplit(c, 1)[-1]` are the same text. */
  lemma AfterLastRSplit(s: string, c: char)
    ensures AfterLast(s, c) == (if RSplitOnce(s, c).Some? then RSplitOnce(s, c).value.1 else s)
  {
    match RSplitOnce(s, c)
    case None =>
    case Some((p, q)) =>
      assert s == p + [c] + q;
      assert s[|s| - |q|..] == q && s[|s| - |q| - 1] == c;
      AfterLastUnique(s, c, q);
  }

  /** The last part of a split at `c` is the text after the last `c`. */
  lemma {:induction false} SplitLastIsAfterLast(s: string, c: char)
    ensures Split(s, [c])[|Split(s, [c])| - 1] == AfterLast(s, c)
  {
    var parts := Split(s, [c]);
    var r := parts[|parts| - 1];
    JoinSplit(s, [c]);
    SplitPartsFree(s, [c]);
    FreeNotContains(r, c);
    JoinLastShape(parts, c);
    AfterLastUnique(s, c, r);
  }

  /** The last part ends the joined text, and is all of it or follows a separator there. */
  lemma {:induction false} JoinLastShape(parts: seq<string>, c: char)
    requires |parts| >= 1
    ensures var j, r := Join(parts, [c]), parts[|parts| - 1];
      EndsWith(j, r) && (|r| == |j| || j[|j| - |r| - 1] == c)
    decreases |parts|
  {
    var j, r := Join(parts, [c]), parts[|parts| - 1];
    if |parts| == 1 {
      assert j == r && j[|j| - |r|..] == j;
    } else {
      var rest := parts[1..];
      JoinLastShape(rest, c);
      assert r == rest[|rest| - 1];
      var x := parts[0] + [c];
      assert j == x + Join(rest, [c]);
      SuffixAfter(x, Join(rest, [c]), r);
    }
  }

  /** A suffix of `y` is a suffix of `x + y`, and the character before it is the same or ends `x`. */
  lemma SuffixAfter(x: string, y: string, r: string)
    requires EndsWith(y, r)
    ensures EndsWith(x + y, r)
    ensures |r| < |y| ==> (x + y)[|x + y| - |r| - 1] == y[|y| - |r| - 1]
    ensures |r| == |y| && |x| > 0 ==> (x + y)[|x + y| - |r| - 1] == x[|x| - 1]
  {
    assert (x + y)[|x + y| - |r|..] == y[|y| - |r|..];
  }

  /** The first part of a split at `c` is the text before the first `c`. */
  lemma SplitFirstBefore(p: string, c: char, q: string)
    requires Free(p, c)
    ensures Split(p + [c] + q, [c])[0] == p
  {
    var s := p + [c] + q;
    assert s[..|p|] == p;
    IndexOfChar(s, c, |p|);
  }

  /** `s.rsplit(c, 1)` returned as the pair of its parts when it has two. */
  function RSplitOnce(s: string, c: char): (r: Option<(string, string)>)
    ensures r.Some? ==> r.value.0 + [c] + r.value.1 == s && forall i :: 0 <= i < |r.value.1| ==> r.value.1[i] != c
    ensures r.None? ==> forall i :: 0 <= i < |s| ==> s[i] != c
  {
    match LastIndexOf(s, c)
    case None => None
    case Some(i) =>
      assert s[..i] + [c] + s[i + 1..] == s;
      Some((s[..i], s[i + 1..]))
  }

  /** The last `c` of `p + [c] + q` is the one after `p` when `q` has none. */
  lemma RSplitOnceAt(p: string, c: char, q: string)
    requires Free(q, c)
    ensures RSplitOnce(p + [c] + q, c) == Some((p, q))
  {
    var s := p + [c] + q;
    assert s[|p|] == c;
    assert forall j :: |p| < j < |s| ==> s[j] == q[j - |p| - 1];
    assert LastIndexOf(s, c) == Some(|p|);
    assert s[..|p|] == p && s[|p| + 1..] == q;
  }

  /** The position of the first character of `s` that is in `chars`. */
  function FirstOf(s: string, chars: set<char>): (r: Option<nat>)
    ensures r.Some? ==> r.value < |s| && s[r.value] in chars && forall j :: 0 <= j < r.value ==> s[j] !in chars
    ensures r.None? ==> forall j :: 0 <= j < |s| ==> s[j] !in chars
  {
    if s == [] then None
    else if s[0] in chars then Some(0)
    else match FirstOf(s[1..], chars)
      case None => None
      case Some(i) => Some(i + 1)
  }

  /** The first position holding one of `chars` is the one before which none occurs. */
  lemma FirstOfAt(s: string, chars: set<char>, i: nat)
    requires i < |s| && s[i] in chars && forall j :: 0 <= j < i ==> s[j] !in chars
    ensures FirstOf(s, chars) == Some(i)
  {
    assert FirstOf(s, chars).Some?;
  }

  /** `s.replace(c, "")` for a single character `c`. */
  function DropChar(s: string, c: char): (r: string)
    ensures Free(r, c) && |r| <= |s|
    ensures Free(s, c) ==> r == s
  {
    if s == [] then []
    else (if s[0] == c then [] else [s[0]]) + DropChar(s[1..], c)
  }

  /** Dropping a character distributes over concatenation. */
  lemma {:induction false} DropCharAppend(s: string, t: string, c: char)
    ensures DropChar(s + t, c) == DropChar(s, c) + DropChar(t, c)
    decreases |s|
  {
    if s != [] {
      var head := if s[0] == c then [] else [s[0]];
      var u := s[1..];
      assert (s + t)[0] == s[0] && (s + t)[1..] == u + t;
      DropCharAppend(u, t, c);
      calc {
        DropChar(s + t, c);
        head + DropChar(u + t, c);
        head + (DropChar(u, c) + DropChar(t, c));
        (head + DropChar(u, c)) + DropChar(t, c);
        { assert DropChar(s, c) == head + DropChar(u, c); }
        DropChar(s, c) + DropChar(t, c);
      }
    } else {
      assert s + t == t;
    }
  }

  /** `s.lstrip(chars)` */
  function LStrip(s: string, chars: set<char>): (r: string)
    ensures EndsWith(s, r) && (r == [] || r[0] !in chars)
    ensures forall i :: 0 <= i < |s| - |r| ==> s[i] in chars
  {
    if s == [] || s[0] !in chars then s else LStrip(s[1..], chars)
  }

  /** `s.rstrip(chars)` */
  function RStrip(s: string, chars: set<char>): (r: string)
    ensures StartsWith(s, r) && (r == [] || r[|r| - 1] !in chars)
    ensures forall i :: |r| <= i < |s| ==> s[i] in chars
  {
    if s == [] || s[|s| - 1] !in chars then s else RStrip(s[..|s| - 1], chars)
  }

  /** `s.strip(chars)` */
  function Strip(s: string, chars: set<char>): string
  {
    RStrip(LStrip(s, chars), chars)
  }

  const WhiteSpace: set<char> :=
    {' ', '\t', '\n', '\r', 11 as char, 12 as char, 28 as char, 29 as char, 30 as char, 31 as char}

  lemma WhiteSpaceIsSpace(c: char)
    ensures c in WhiteSpace <==> IsSpace(c)
  {}

  /** Number of leading characters that are not white space. */
  function WordLength(s: string): (n: nat)
    ensures n <= |s| && forall i :: 0 <= i < n ==> !IsSpace(s[i])
    ensures n < |s| ==> IsSpace(s[n])
  {
    if s == [] || IsSpace(s[0]) then 0 else 1 + WordLength(s[1..])
  }

  /** `s.split()` with no argument: the maximal runs of non-white-space characters. */
  function Words(s: string): (ws: seq<string>)
    ensures forall k :: 0 <= k < |ws| ==> |ws[k]| > 0 && forall i :: 0 <= i < |ws[k]| ==> !IsSpace(ws[k][i])
    decreases |s|
  {
    if s == [] then []
    else if IsSpace(s[0]) then Words(s[1..])
    else
      var n := WordLength(s);
      [s[..n]] + Words(s[n..])
  }

  /** Python's string ordering (`<` on `str`): code-point lexicographic, a proper prefix first. */
  function StrCmp(a: string, b: string): (r: int)
    ensures -1 <= r <= 1
  {
    if a == [] && b == [] then 0
    else if a == [] then -1
    else if b == [] then 1
    else if a[0] < b[0] then -1
    else if a[0] > b[0] then 1
    else StrCmp(a[1..], b[1..])
  }

  predicate StrLt(a: string, b: string) { StrCmp(a, b) < 0 }
  predicate StrLe(a: string, b: string) { StrCmp(a, b) <= 0 }

  lemma {:induction false} StrCmpZero(a: string, b: string)
    ensures StrCmp(a, b) == 0 <==> a == b
  {
    if a != [] && b != [] && a[0] == b[0] {
      StrCmpZero(a[1..], b[1..]);
      assert a == [a[0]] + a[1..] && b == [b[0]] + b[1..];
    }
  }

  lemma {:induction false} StrCmpAntisymmetric(a: string, b: string)
    ensures StrCmp(a, b) == -StrCmp(b, a)
  {
    if a != [] && b != [] && a[0] == b[0] {
      StrCmpAntisymmetric(a[1..], b[1..]);
    }
  }

  lemma {:induction false} StrCmpTransitive(a: string, b: string, c: string)
    requires StrCmp(a, b) <= 0 && StrCmp(b, c) <= 0
    ensures StrCmp(a, c) <= 0
    ensures StrCmp(a, b) < 0 || StrCmp(b, c) < 0 ==> StrCmp(a, c) < 0
  {
    StrCmpZero(a, b);
    StrCmpZero(b, c);
    if a != [] && b != [] && c != [] && a[0] == b[0] && b[0] == c[0] {
      StrCmpTransitive(a[1..], b[1..], c[1..]);
    }
  }

  /** Strictly increasing under `StrCmp`: sorted without duplicates. */
  predicate StrictlySorted(r: seq<string>)
  {
    forall i, j :: 0 <= i < j < |r| ==> StrLt(r[i], r[j])
  }

  /** `x` put in its place in a strictly sorted sequence, unless it is there already. */
  function InsertSorted(r: seq<string>, x: string): (q: seq<string>)
    requires StrictlySorted(r)
    ensures StrictlySorted(q)
    ensures forall y :: y in q <==> y in r || y == x
  {
    if r == [] then [x]
    else if x == r[0] then r
    else if StrLt(x, r[0]) then
      forall j | 0 <= j < |r| ensures StrLt(x, r[j]) {
        if j > 0 { StrCmpTransitive(x, r[0], r[j]); }
      }
      [x] + r
    else
      var tail := InsertSorted(r[1..], x);
      StrCmpAntisymmetric(x, r[0]);
      StrCmpZero(x, r[0]);
      assert forall y :: y in r <==> y == r[0] || y in r[1..];
      forall j | 0 <= j < |tail| ensures StrLt(r[0], tail[j]) {
        assert tail[j] in tail;
        if tail[j] != x {
          var k :| 0 <= k < |r[1..]| && r[1..][k] == tail[j];
          assert r[k + 1] == tail[j];
        }
      }
      [r[0]] + tail
  }

  /** `sorted(set(s))`: the distinct elements of `s` in increasing order. */
  function SortedDistinct(s: seq<string>): (r: seq<string>)
    ensures StrictlySorted(r)
    ensures forall y :: y in r <==> y in s
  {
    if s == [] then []
    else
      assert forall y :: y in s <==> y in s[..|s| - 1] || y == s[|s| - 1];
      InsertSorted(SortedDistinct(s[..|s| - 1]), s[|s| - 1])
  }

  lemma SameElementsEmpty(a: seq<string>, b: seq<string>)
    requires forall x :: x in a <==> x in b
    ensures a == [] <==> b == []
  {
    if a != [] { assert a[0] in b; }
    if b != [] { assert b[0] in a; }
  }

  /** Two strictly sorted sequences with the same elements are the same sequence. */
  lemma {:induction false} StrictlySortedUnique(a: seq<string>, b: seq<string>)
    requires StrictlySorted(a) && StrictlySorted(b)
    requires forall x :: x in a <==> x in b
    ensures a == b
  {
    if a != [] && b != [] {
      assert a[0] in b && b[0] in a;
      if a[0] != b[0] {
        var i :| 0 <= i < |b| && b[i] == a[0];
        var j :| 0 <= j < |a| && a[j] == b[0];
        assert StrLt(b[0], a[0]) && StrLt(a[0], b[0]);
        StrCmpAntisymmetric(a[0], b[0]);
      }
      forall x ensures x in a[1..] <==> x in b[1..] {
        if x in a[1..] {
          var k :| 1 <= k < |a| && a[k] == x;
          assert StrLt(a[0], x);
          StrCmpZero(a[0], x);
          assert x in b;
          assert x != b[0];
        }
        if x in b[1..] {
          var k :| 1 <= k < |b| && b[k] == x;
          assert StrLt(b[0], x);
          StrCmpZero(b[0], x);
          assert x in a;
          assert x != a[0];
        }
      }
      StrictlySortedUnique(a[1..], b[1..]);
      assert a == [a[0]] + a[1..] && b == [b[0]] + b[1..];
    } else {
      SameElementsEmpty(a, b);
    }
  }

  /** Decimal digit value of a digit character. */
  function DigitValue(c: char): nat
    requires IsDigit(c)
  {
    c as int - '0' as int
  }

  function DigitChar(d: nat): (c: char)
    requires d < 10
    ensures IsDigit(c) && DigitValue(c) == d
  {
    ('0' as int + d) as char
  }

  /** The value of a string of decimal digits (`int(s)` for such strings; "" has value 0). */
  function DecimalValue(s: string): nat
    requires AllDigits(s)
  {
    if s == [] then 0 else DecimalValue(s[..|s| - 1]) * 10 + DigitValue(s[|s| - 1])
  }

  /** `str(n)` for a natural number. */
  function NatToString(n: nat): (s: string)
    ensures |s| > 0 && AllDigits(s) && DecimalValue(s) == n
    ensures |s| > 1 ==> s[0] != '0'
  {
    if n < 10 then [DigitChar(n)]
    else
      var p := NatToString(n / 10);
      var s := p + [DigitChar(n % 10)];
      assert s[..|s| - 1] == p;
      s
  }

  /** `str(n)` for an integer. */
  function IntToString(n: int): (s: string)
    ensures |s| > 0
  {
    if n < 0 then "-" + NatToString(-n) else NatToString(n)
  }

  /**
   * `int(s)` for the forms the code base reads: optional surrounding white space, an optional sign and at
   * least one decimal digit; anything else raises ValueError.
   */
  function ParseInt(s: string): Result<int>
  {
    var t := Strip(s, WhiteSpace);
    if |t| > 0 && (t[0] == '-' || t[0] == '+') && |t| > 1 && AllDigits(t[1..]) then
      var v: int := DecimalValue(t[1..]);
      Ok(if t[0] == '-' then -v else v)
    else if |t| > 0 && AllDigits(t) then Ok(DecimalValue(t))
    else Err(ValueError("invalid literal for int()"))
  }

  /** `int(str(n)) == n` */
  lemma ParseIntRoundTrip(n: nat)
    ensures ParseInt(NatToString(n)) == Ok(n)
  {
    var s := NatToString(n);
    assert s[0] !in WhiteSpace && s[|s| - 1] !in WhiteSpace;
    assert LStrip(s, WhiteSpace) == s;
    assert RStrip(s, WhiteSpace) == s;
  }
}
