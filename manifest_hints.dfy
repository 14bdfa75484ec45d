// The manifest hints parser: each line of the hints file is classified by its shape and matched against the
// patterns of its category; the first pattern that matches gives the entry. The regular expressions themselves
// are parameters: a matcher gives the named groups of a match at the start of its input, or nothing.

module ManifestHints {
  import opened Wrappers
  import opened Text

  /** The named groups of a match. */
  type Groups = map<string, string>

  /** A compiled pattern, matched at the start of its input. */
  type Matcher = string -> Option<Groups>

  /** The pattern lists of the parser, one per category, and the annotation patterns. */
  datatype Patterns = Patterns(embedded: seq<Matcher>, equalSign: seq<Matcher>, colon: seq<Matcher>,
                               parenthese: seq<Matcher>, annotation: seq<Matcher>)

  /** An emitted entry: the groups of a match with "original" added, or a line no category applies to. */
  datatype Hint = Matched(groups: Groups) | Unprocessed(original: string)

  // ---------------------------------------------------------------------------------------------
  // load_manifest_hints
  // ---------------------------------------------------------------------------------------------

  /** The non-empty strings, in order. */
  function NonEmpty(xs: seq<string>): (r: seq<string>)
    ensures |r| <= |xs| && forall i :: 0 <= i < |r| ==> r[i] != "" && r[i] in xs
  {
    if xs == [] then []
    else (if xs[0] == "" then [] else [xs[0]]) + NonEmpty(xs[1..])
  }

  /** The strings one after the other. */
  function Concat(xs: seq<string>): string
  {
    if xs == [] then "" else xs[0] + Concat(xs[1..])
  }

  /** `load_manifest_hints`: an error status raises, otherwise the non-empty lines of the text. */
  function LoadManifestHints(status: int, text: string): (r: Result<seq<string>>)
    ensures r.Err? <==> 400 <= status < 600
    ensures r.Err? ==> r.error == HttpError(status)
    ensures r.Ok? ==> forall i :: 0 <= i < |r.value| ==> r.value[i] != "" && Free(r.value[i], '\n')
  {
    if 400 <= status < 600 then Err(HttpError(status))
    else
      var lines := NonEmpty(Split(text, "\n"));
      SplitPartsFree(text, "\n");
      assert forall i :: 0 <= i < |lines| ==> Free(lines[i], '\n') by {
        forall i | 0 <= i < |lines|
          ensures Free(lines[i], '\n')
        {
          var k :| 0 <= k < |Split(text, "\n")| && Split(text, "\n")[k] == lines[i];
          FreeNotContains(lines[i], '\n');
        }
      }
      Ok(lines)
  }

  lemma {:induction false} ConcatNonEmpty(xs: seq<string>)
    ensures Concat(NonEmpty(xs)) == Concat(xs)
    decreases |xs|
  {
    if xs != [] {
      ConcatNonEmpty(xs[1..]);
      if xs[0] == "" {
        assert NonEmpty(xs) == NonEmpty(xs[1..]);
      } else {
        assert NonEmpty(xs) == [xs[0]] + NonEmpty(xs[1..]);
        assert ([xs[0]] + NonEmpty(xs[1..]))[1..] == NonEmpty(xs[1..]);
      }
    }
  }

  /** The pieces of a split on newline, put together, are the text without its newlines. */
  lemma {:induction false} ConcatSplitLines(text: string)
    ensures Concat(Split(text, "\n")) == DropChar(text, '\n')
    decreases |text|
  {
    match IndexOf(text, "\n")
    case None =>
      FreeNotContains(text, '\n');
      assert Split(text, "\n") == [text];
      assert Concat([text]) == text + Concat([]);
    case Some(i) =>
      IndexOfCharFirst(text, '\n', i);
      var rest := text[i + 1..];
      ConcatSplitLines(rest);
      DropCharAt(text, '\n', i);
      ConcatCons(text[..i], Split(rest, "\n"));
  }

  /** Dropping a character around its first occurrence. */
  lemma DropCharAt(s: string, c: char, i: nat)
    requires i < |s| && s[i] == c && Free(s[..i], c)
    ensures DropChar(s, c) == s[..i] + DropChar(s[i + 1..], c)
  {
    var front, tail := s[..i], s[i..];
    assert s == front + tail;
    DropCharAppend(front, tail, c);
    assert tail[0] == c && tail[1..] == s[i + 1..];
    assert DropChar(tail, c) == DropChar(s[i + 1..], c);
  }

  lemma ConcatCons(x: string, xs: seq<string>)
    ensures Concat([x] + xs) == x + Concat(xs)
  {
    assert ([x] + xs)[1..] == xs;
  }

  /** Nothing but newlines is lost: the lines loaded, put together, are the text without its newlines. */
  lemma LoadKeepsText(status: int, text: string)
    requires !(400 <= status < 600)
    ensures Concat(LoadManifestHints(status, text).value) == DropChar(text, '\n')
  {
    ConcatNonEmpty(Split(text, "\n"));
    ConcatSplitLines(text);
  }

  // ---------------------------------------------------------------------------------------------
  // extract_from_annotation
  // ---------------------------------------------------------------------------------------------

  /** The groups of the first pattern that matches `s`. */
  function MatchFirst(patterns: seq<Matcher>, s: string): Option<Groups>
  {
    FirstSome(patterns, (p: Matcher) => p(s))
  }

  /** The loop over a pattern list that stops at the first match. */
  method FirstMatch(patterns: seq<Matcher>, s: string) returns (r: Option<Groups>)
    ensures r == MatchFirst(patterns, s)
  {
    var i := 0;
    while i < |patterns|
      invariant i <= |patterns|
      invariant MatchFirst(patterns, s) == MatchFirst(patterns[i..], s)
    {
      var m := patterns[i](s);
      if m.Some? {
        return m;
      }
      assert patterns[i..][1..] == patterns[i + 1..];
      i := i + 1;
    }
    return None;
  }

  /**
   * The groups of the first matching pattern decide, whatever later patterns would give; no match gives no
   * groups.
   */
  lemma MatchFirstWins(patterns: seq<Matcher>, s: string, i: nat)
    requires i < |patterns| && patterns[i](s).Some?
    requires forall j :: 0 <= j < i ==> patterns[j](s).None?
    ensures MatchFirst(patterns, s) == patterns[i](s)
  {
    var f := (p: Matcher) => p(s);
    var r := MatchFirst(patterns, s);
    assert f(patterns[i]).Some?;
    var k :| 0 <= k < |patterns| && f(patterns[k]) == r && NoneBefore(patterns, f, k);
  }

  /** `extract_from_annotation`: the groups of the first annotation pattern that matches, else none. */
  method ExtractFromAnnotation(ps: Patterns, annotation: string) returns (data: Groups)
    ensures data == MatchFirst(ps.annotation, annotation).GetOr(map[])
  {
    var m := FirstMatch(ps.annotation, annotation);
    data := if m.Some? then m.value else map[];
  }

  // ---------------------------------------------------------------------------------------------
  // parse
  // ---------------------------------------------------------------------------------------------

  /** The shape of a line, tried in this order. */
  datatype Category = Embedded | EqualSign | Colon | Parenthese | Other

  function CategoryOf(line: string): Category
  {
    if StartsWith(line, "embedded") then Embedded
    else if '=' in line then EqualSign
    else if ':' in line then Colon
    else if '(' in line then Parenthese
    else Other
  }

  /** The groups with the groups of their "annotation" merged over them, when they have one. */
  function Annotated(ps: Patterns, d: Groups): Groups
  {
    if "annotation" in d then d + MatchFirst(ps.annotation, d["annotation"]).GetOr(map[]) else d
  }

  /** The entry a match in a category gives, with the rstripped line recorded as "original". */
  function Entry(ps: Patterns, patterns: seq<Matcher>, annotate: bool, line: string): Option<Hint>
  {
    match MatchFirst(patterns, line)
    case None => None
    case Some(d) => Some(Matched((if annotate then Annotated(ps, d) else d)["original" := line]))
  }

  /** The entry one line of the file gives, if any. */
  function ParseLine(ps: Patterns, raw: string): Option<Hint>
  {
    var line := RStrip(raw, WhiteSpace);
    if line == "" || StartsWith(line, "#") then None
    else
      match CategoryOf(line)
      case Embedded => Entry(ps, ps.embedded, true, line)
      case EqualSign => Entry(ps, ps.equalSign, true, line)
      case Colon => Entry(ps, ps.colon, false, line)
      case Parenthese => Entry(ps, ps.parenthese, true, line)
      case Other => Some(Unprocessed(line))
  }

  /** The entries of the lines in order. */
  function Parse(ps: Patterns, lines: seq<string>): seq<Hint>
  {
    if lines == [] then []
    else
      var front := Parse(ps, lines[..|lines| - 1]);
      match ParseLine(ps, lines[|lines| - 1])
      case None => front
      case Some(h) => front + [h]
  }

  /** `parse` over the loaded lines. */
  method ParseHints(ps: Patterns, lines: seq<string>) returns (components: seq<Hint>)
    ensures components == Parse(ps, lines)
  {
    components := [];
    for i := 0 to |lines|
      invariant components == Parse(ps, lines[..i])
    {
      assert lines[..i + 1][..i] == lines[..i];
      var h := ParseOneLine(ps, lines[i]);
      if h.Some? {
        components := components + [h.value];
      }
    }
    assert lines[..|lines|] == lines;
  }

  /** The body of the loop of `parse`: the entry of one line, if it gives one. */
  method ParseOneLine(ps: Patterns, raw: string) returns (h: Option<Hint>)
    ensures h == ParseLine(ps, raw)
  {
    var line := RStrip(raw, WhiteSpace);
    if line == "" || StartsWith(line, "#") {
      return None;
    }
    var patterns: seq<Matcher>;
    var annotate := true;
    if StartsWith(line, "embedded") {
      patterns := ps.embedded;
    } else if '=' in line {
      patterns := ps.equalSign;
    } else if ':' in line {
      patterns := ps.colon;
      annotate := false;
    } else if '(' in line {
      patterns := ps.parenthese;
    } else {
      return Some(Unprocessed(line));
    }
    var m := FirstMatch(patterns, line);
    if m.None? {
      return None;
    }
    var d := m.value;
    if annotate && "annotation" in d {
      var annotationData := ExtractFromAnnotation(ps, d["annotation"]);
      d := d + annotationData;
    }
    d := d["original" := line];
    return Some(Matched(d));
  }

  /** The line an entry was made from. */
  function Original(h: Hint): Option<string>
  {
    match h
    case Matched(groups) => if "original" in groups then Some(groups["original"]) else None
    case Unprocessed(line) => Some(line)
  }

  /**
   * Blank lines and comments give nothing; every entry records its line, right-stripped, as "original"; a line
   * gives an unprocessed entry exactly when it falls in no category.
   */
  lemma ParseLineOriginal(ps: Patterns, raw: string)
    ensures var line := RStrip(raw, WhiteSpace);
      (line == "" || StartsWith(line, "#")) ==> ParseLine(ps, raw).None?
    ensures ParseLine(ps, raw).Some? ==> Original(ParseLine(ps, raw).value) == Some(RStrip(raw, WhiteSpace))
    ensures (ParseLine(ps, raw).Some? && ParseLine(ps, raw).value.Unprocessed?) <==>
      var line := RStrip(raw, WhiteSpace);
      line != "" && !StartsWith(line, "#") && CategoryOf(line) == Other
  {
  }

  /**
   * Only the category of a line decides which patterns are consulted: two pattern sets that agree on that
   * category (and on the annotation patterns) give the same entry.
   */
  lemma ParseLineUsesOneCategory(ps: Patterns, qs: Patterns, raw: string)
    requires ps.annotation == qs.annotation
    requires var line := RStrip(raw, WhiteSpace);
      match CategoryOf(line)
      case Embedded => ps.embedded == qs.embedded
      case EqualSign => ps.equalSign == qs.equalSign
      case Colon => ps.colon == qs.colon
      case Parenthese => ps.parenthese == qs.parenthese
      case Other => true
    ensures ParseLine(ps, raw) == ParseLine(qs, raw)
  {
  }

  /** Lines are parsed independently: the entries of a file cut in two are those of the parts, concatenated. */
  lemma {:induction false} ParseAppend(ps: Patterns, a: seq<string>, b: seq<string>)
    ensures Parse(ps, a + b) == Parse(ps, a) + Parse(ps, b)
    decreases |b|
  {
    if b == [] {
      assert a + b == a;
    } else {
      var b' := b[..|b| - 1];
      assert (a + b)[..|a + b| - 1] == a + b';
      assert (a + b)[|a + b| - 1] == b[|b| - 1];
      ParseAppend(ps, a, b');
    }
  }

  /** At most one entry per line. */
  lemma {:induction false} ParseLength(ps: Patterns, lines: seq<string>)
    ensures |Parse(ps, lines)| <= |lines|
    decreases |lines|
  {
    if lines != [] {
      ParseLength(ps, lines[..|lines| - 1]);
    }
  }
}
