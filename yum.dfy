/**
 * `corgi/collectors/yum.py`: the DNF command lines the Yum collector builds and the parsing of DNF's text
 * output. Running DNF is not part of this model: its output is the input sequence of lines.
 */
module Yum {
  import opened Wrappers
  import opened Text

  const DnfBaseCommand: seq<string> := ["dnf", "--noplugins", "--quiet"]

  /** The two options that select the repo numbered `id`. */
  function RepoOptions(id: nat, repo: string): seq<string>
  {
    ["--repofrompath=" + NatToString(id) + "," + repo, "--repoid=" + NatToString(id)]
  }

  /** The options `filter_by_repos` appends: the repos are numbered from 1 in order. */
  function RepoArgs(repos: seq<string>): (r: seq<string>)
    ensures |r| == 2 * |repos|
  {
    if repos == [] then [] else RepoArgs(repos[..|repos| - 1]) + RepoOptions(|repos|, repos[|repos| - 1])
  }

  /** The `k`-th repo (from 0) is selected by options `2k` and `2k + 1`, under the number `k + 1`. */
  lemma {:induction false} RepoArgsAt(repos: seq<string>, k: nat)
    requires k < |repos|
    ensures RepoArgs(repos)[2 * k..2 * k + 2] == RepoOptions(k + 1, repos[k])
  {
    var prefix := repos[..|repos| - 1];
    if k < |repos| - 1 {
      RepoArgsAt(prefix, k);
      assert prefix[k] == repos[k];
      assert RepoArgs(repos)[2 * k..2 * k + 2] == RepoArgs(prefix)[2 * k..2 * k + 2];
    }
  }

  /** `Yum.filter_by_repos`: the command with the repo options appended. */
  method FilterByRepos(command: seq<string>, repos: seq<string>) returns (r: seq<string>)
    ensures r == command + RepoArgs(repos)
  {
    r := command;
    var repoId := 1;
    var i := 0;
    while i < |repos|
      invariant 0 <= i <= |repos| && repoId == i + 1
      invariant r == command + RepoArgs(repos[..i])
    {
      assert repos[..i + 1][..i] == repos[..i];
      r := r + ["--repofrompath=" + NatToString(repoId) + "," + repos[i]];
      r := r + ["--repoid=" + NatToString(repoId)];
      repoId := repoId + 1;
      i := i + 1;
    }
    assert repos[..|repos|] == repos;
  }

  // get_modules: the output of `dnf module info` in blocks

  /** The position of the first empty line. */
  function FirstEmpty(lines: seq<string>): (r: Option<nat>)
    ensures r.Some? ==> r.value < |lines| && lines[r.value] == "" && forall j :: 0 <= j < r.value ==> lines[j] != ""
    ensures r.None? ==> forall j :: 0 <= j < |lines| ==> lines[j] != ""
  {
    if lines == [] then None
    else if lines[0] == "" then Some(0)
    else match FirstEmpty(lines[1..])
      case None => None
      case Some(i) => Some(i + 1)
  }

  lemma FirstEmptyAt(lines: seq<string>, i: nat)
    requires i < |lines| && lines[i] == "" && forall j :: 0 <= j < i ==> lines[j] != ""
    ensures FirstEmpty(lines) == Some(i)
  {
  }

  /** The blocks of lines each ended by an empty line; lines after the last empty line belong to none. */
  function Blocks(lines: seq<string>): seq<seq<string>>
    decreases |lines|
  {
    match FirstEmpty(lines)
    case None => []
    case Some(i) => [lines[..i]] + Blocks(lines[i + 1..])
  }

  /** The blocks written back, each followed by its empty line. */
  function Unblock(blocks: seq<seq<string>>): seq<string>
  {
    if blocks == [] then [] else blocks[0] + [""] + Unblock(blocks[1..])
  }

  /** The number of empty lines. */
  function EmptyLines(lines: seq<string>): nat
  {
    if lines == [] then 0 else (if lines[0] == "" then 1 else 0) + EmptyLines(lines[1..])
  }

  lemma {:induction false} NoEmptyLines(lines: seq<string>)
    requires forall j :: 0 <= j < |lines| ==> lines[j] != ""
    ensures EmptyLines(lines) == 0
  {
    if lines != [] { NoEmptyLines(lines[1..]); }
  }

  lemma {:induction false} EmptyLinesAppend(a: seq<string>, b: seq<string>)
    ensures EmptyLines(a + b) == EmptyLines(a) + EmptyLines(b)
  {
    if a != [] {
      assert (a + b)[1..] == a[1..] + b;
      EmptyLinesAppend(a[1..], b);
    } else {
      assert a + b == b;
    }
  }

  /** Splitting at the first empty line. */
  lemma BlocksAt(lines: seq<string>, i: nat)
    requires i < |lines| && lines[i] == "" && forall j :: 0 <= j < i ==> lines[j] != ""
    ensures Blocks(lines) == [lines[..i]] + Blocks(lines[i + 1..])
  {
    FirstEmptyAt(lines, i);
  }

  lemma BlocksNone(lines: seq<string>)
    requires forall j :: 0 <= j < |lines| ==> lines[j] != ""
    ensures Blocks(lines) == []
  {
    assert FirstEmpty(lines) == None;
  }

  /** The blocks hold no empty line. */
  lemma {:induction false} BlocksHaveNoEmptyLine(lines: seq<string>)
    ensures forall b :: b in Blocks(lines) ==> forall j :: 0 <= j < |b| ==> b[j] != ""
    decreases |lines|
  {
    match FirstEmpty(lines)
    case None =>
    case Some(i) =>
      BlocksHaveNoEmptyLine(lines[i + 1..]);
  }

  /** There is one block per empty line. */
  lemma {:induction false} BlocksCount(lines: seq<string>)
    ensures |Blocks(lines)| == EmptyLines(lines)
    decreases |lines|
  {
    match FirstEmpty(lines)
    case None =>
      NoEmptyLines(lines);
    case Some(i) =>
      BlocksCount(lines[i + 1..]);
      EmptyLinesAt(lines, i);
  }

  /** Up to the first empty line, at `i`, the lines hold one empty line. */
  lemma EmptyLinesAt(lines: seq<string>, i: nat)
    requires i < |lines| && lines[i] == "" && forall j :: 0 <= j < i ==> lines[j] != ""
    ensures EmptyLines(lines) == 1 + EmptyLines(lines[i + 1..])
  {
    var rest := lines[i + 1..];
    assert lines == lines[..i] + ([""] + rest);
    NoEmptyLines(lines[..i]);
    EmptyLinesAppend(lines[..i], [""] + rest);
    EmptyLinesAppend([""], rest);
  }

  lemma UnblockCons(b: seq<string>, bs: seq<seq<string>>)
    ensures Unblock([b] + bs) == b + [""] + Unblock(bs)
  {
    assert ([b] + bs)[1..] == bs;
  }

  /** Written back, the blocks are the output up to its last empty line; what follows holds no empty line. */
  lemma {:induction false} BlocksPrefix(lines: seq<string>)
    ensures var u := Unblock(Blocks(lines));
      (|u| <= |lines| && lines[..|u|] == u && forall j :: |u| <= j < |lines| ==> lines[j] != "")
    decreases |lines|
  {
    match FirstEmpty(lines)
    case None =>
    case Some(i) =>
      var rest := lines[i + 1..];
      BlocksPrefix(rest);
      var u := Unblock(Blocks(rest));
      assert Blocks(lines) == [lines[..i]] + Blocks(rest);
      UnblockCons(lines[..i], Blocks(rest));
      var w := lines[..i] + [""] + u;
      JoinFront(lines, i, u);
      forall j | |w| <= j < |lines| ensures lines[j] != "" {
        assert lines[j] == rest[j - i - 1];
      }
  }

  lemma JoinFront(lines: seq<string>, i: nat, u: seq<string>)
    requires i < |lines| && lines[i] == "" && |u| <= |lines| - i - 1 && lines[i + 1..][..|u|] == u
    ensures lines[..i + 1 + |u|] == lines[..i] + [""] + u
  {
    var w := lines[..i] + [""] + u;
    forall j | 0 <= j < |w| ensures lines[j] == w[j] {
      if j > i {
        assert lines[j] == lines[i + 1..][..|u|][j - i - 1];
      }
    }
  }

  lemma {:induction false} UnblockSnoc(bs: seq<seq<string>>, b: seq<string>)
    ensures Unblock(bs + [b]) == Unblock(bs) + b + [""]
  {
    if bs != [] {
      assert (bs + [b])[1..] == bs[1..] + [b];
      UnblockSnoc(bs[1..], b);
    } else {
      UnblockCons(b, []);
    }
  }

  lemma SplitFront(lines: seq<string>, b: seq<string>, v: seq<string>)
    requires |b| + 1 + |v| <= |lines| && lines[..|b| + 1 + |v|] == b + [""] + v
    ensures lines[..|b|] == b && lines[|b|] == "" && lines[|b| + 1..][..|v|] == v
  {
    var u := b + [""] + v;
    assert lines[..|b|] == u[..|b|];
    assert lines[|b|] == u[|b|];
    assert lines[|b| + 1..][..|v|] == u[|b| + 1..];
  }

  /**
   * The split is determined by the empty lines: blocks without empty lines that write back to a prefix of the
   * output, after which no empty line follows, are the blocks of the output.
   */
  lemma {:induction false} BlocksUnique(lines: seq<string>, blocks: seq<seq<string>>)
    requires forall b :: b in blocks ==> forall j :: 0 <= j < |b| ==> b[j] != ""
    requires |Unblock(blocks)| <= |lines| && lines[..|Unblock(blocks)|] == Unblock(blocks)
    requires forall j :: |Unblock(blocks)| <= j < |lines| ==> lines[j] != ""
    ensures blocks == Blocks(lines)
    decreases |blocks|
  {
    if blocks == [] {
      BlocksNone(lines);
    } else {
      var b := blocks[0];
      var v := Unblock(blocks[1..]);
      UnblockCons(b, blocks[1..]);
      assert blocks == [b] + blocks[1..];
      SplitFront(lines, b, v);
      BlocksAt(lines, |b|);
      NonEmptyTail(lines, |b| + 1, |v|);
      BlocksUnique(lines[|b| + 1..], blocks[1..]);
    }
  }

  lemma NonEmptyTail(lines: seq<string>, k: nat, n: nat)
    requires k <= |lines| && forall j :: k + n <= j < |lines| ==> lines[j] != ""
    ensures forall j :: n <= j < |lines[k..]| ==> lines[k..][j] != ""
  {
    forall j | n <= j < |lines[k..]| ensures lines[k..][j] != "" {
      assert lines[k..][j] == lines[k + j];
    }
  }

  /** The block loop of `Yum.get_modules`. */
  method SplitBlocks(output: seq<string>) returns (blocks: seq<seq<string>>)
    ensures blocks == Blocks(output)
  {
    blocks := [];
    var start := 0;
    var lineNo := 0;
    while lineNo < |output|
      invariant 0 <= start <= lineNo <= |output|
      invariant forall j :: start <= j < lineNo ==> output[j] != ""
      invariant forall b :: b in blocks ==> forall j :: 0 <= j < |b| ==> b[j] != ""
      invariant Unblock(blocks) == output[..start]
    {
      if output[lineNo] == "" {
        CloseBlock(output, blocks, start, lineNo);
        blocks := blocks + [output[start..lineNo]];
        start := lineNo + 1;
      }
      lineNo := lineNo + 1;
    }
    BlocksUnique(output, blocks);
  }

  /** An empty line closes the block begun at `start`. */
  lemma CloseBlock(output: seq<string>, blocks: seq<seq<string>>, start: nat, lineNo: nat)
    requires start <= lineNo < |output| && output[lineNo] == "" && Unblock(blocks) == output[..start]
    ensures Unblock(blocks + [output[start..lineNo]]) == output[..lineNo + 1]
  {
    UnblockSnoc(blocks, output[start..lineNo]);
    assert output[..lineNo + 1] == output[..start] + output[start..lineNo] + [""];
  }

  // find_modules_from_yum_repos: the output of `dnf module list`

  /** Whether the next non-empty line starts a block, and the first-column names met so far. */
  datatype ListState = ListState(blockStart: bool, names: seq<string>)

  predicate IsHeader(pieces: seq<string>) { |pieces| > 1 && pieces[0] == "Name" && pieces[1] == "Stream" }

  /** One line of the listing loop; a blank but non-empty line has no first column and raises IndexError. */
  function ListLine(st: ListState, line: string): Result<ListState>
  {
    var pieces := Words(line);
    if line == "" then Ok(ListState(true, st.names))
    else if st.blockStart then Ok(ListState(false, st.names))
    else if IsHeader(pieces) then Ok(st)
    else if |pieces| == 0 then Err(IndexError)
    else if pieces[0] == "Hint:" then Ok(st)
    else Ok(ListState(st.blockStart, st.names + [pieces[0]]))
  }

  /** The listing loop over the whole output. */
  function ListModules(lines: seq<string>): Result<ListState>
  {
    if lines == [] then Ok(ListState(true, []))
    else match ListModules(lines[..|lines| - 1])
      case Err(e) => Err(e)
      case Ok(st) => ListLine(st, lines[|lines| - 1])
  }

  /** The module names `find_modules_from_yum_repos` passes on: its set of names, sorted. */
  method FindModuleNames(output: seq<string>) returns (r: Result<seq<string>>)
    ensures ListModules(output).Err? ==> r == Err(ListModules(output).error)
    ensures ListModules(output).Ok? ==> r == Ok(SortedDistinct(ListModules(output).value.names))
  {
    var names: seq<string> := [];
    var isBlockStart := true;
    var i := 0;
    while i < |output|
      invariant 0 <= i <= |output|
      invariant ListModules(output[..i]) == Ok(ListState(isBlockStart, names))
    {
      assert output[..i + 1][..i] == output[..i];
      var line := output[i];
      var pieces := Words(line);
      if line == "" {
        isBlockStart := true;
      } else if isBlockStart {
        isBlockStart := false;
      } else if IsHeader(pieces) {
      } else if |pieces| == 0 {
        assert ListModules(output[..i + 1]) == Err(IndexError);
        ListModulesErrSticks(output, i + 1);
        return Err(IndexError);
      } else if pieces[0] == "Hint:" {
      } else {
        names := names + [pieces[0]];
      }
      i := i + 1;
    }
    assert output[..|output|] == output;
    return Ok(SortedDistinct(names));
  }

  /** Once the loop has raised, the longer outputs raise the same error. */
  lemma {:induction false} ListModulesErrSticks(lines: seq<string>, n: nat)
    requires n <= |lines| && ListModules(lines[..n]).Err?
    ensures ListModules(lines) == ListModules(lines[..n])
    decreases |lines| - n
  {
    if n < |lines| {
      assert lines[..n + 1][..n] == lines[..n];
      ListModulesErrSticks(lines, n + 1);
    } else {
      assert lines[..n] == lines;
    }
  }

  /** Every listed name is the first column of a line that is neither the column header nor the hint. */
  lemma {:induction false} ListedNamesFromLines(lines: seq<string>)
    requires ListModules(lines).Ok?
    ensures forall n :: n in ListModules(lines).value.names ==> (n != "Hint:" &&
      exists j :: 0 <= j < |lines| && |Words(lines[j])| > 0 && Words(lines[j])[0] == n && !IsHeader(Words(lines[j])))
  {
    if lines != [] {
      var prefix := lines[..|lines| - 1];
      ListedNamesFromLines(prefix);
      forall n | n in ListModules(lines).value.names
        ensures n != "Hint:" &&
          exists j :: 0 <= j < |lines| && |Words(lines[j])| > 0 && Words(lines[j])[0] == n && !IsHeader(Words(lines[j]))
      {
        if n in ListModules(prefix).value.names {
          var j :| 0 <= j < |prefix| && |Words(prefix[j])| > 0 && Words(prefix[j])[0] == n && !IsHeader(Words(prefix[j]));
          assert lines[j] == prefix[j];
        } else {
          assert Words(lines[|lines| - 1])[0] == n;
        }
      }
    }
  }

  /** Whether line `k` adds its first column: it is non-empty, not a block's first line, not the column header and not the hint. */
  predicate Contributes(lines: seq<string>, k: nat)
    requires k < |lines|
  {
    lines[k] != "" && k > 0 && lines[k - 1] != "" && !IsHeader(Words(lines[k]))
    && |Words(lines[k])| > 0 && Words(lines[k])[0] != "Hint:"
  }

  /** The names the listing should yield, read off the lines directly: the first column of each contributing line, in order. */
  function ListedNames(lines: seq<string>): (r: seq<string>)
    ensures |r| <= |lines|
  {
    if lines == [] then []
    else
      var k := |lines| - 1;
      ListedNames(lines[..k]) + (if Contributes(lines, k) then [Words(lines[k])[0]] else [])
  }

  /** The loop's names are exactly `ListedNames`, and a block starts exactly after an empty line (or at the top). */
  lemma {:induction false} ListModulesNames(lines: seq<string>)
    requires ListModules(lines).Ok?
    ensures ListModules(lines).value.names == ListedNames(lines)
    ensures ListModules(lines).value.blockStart <==> (lines == [] || lines[|lines| - 1] == "")
  {
    if lines != [] {
      var k := |lines| - 1;
      var prefix := lines[..k];
      ListModulesNames(prefix);
      assert prefix == [] || prefix[k - 1] == lines[k - 1];
      if k > 0 {
        assert lines[..k][..k - 1] == lines[..k - 1];
      }
    }
  }

  /** A listed line's first column is among the names, and a block's first line adds nothing to them. */
  lemma ListedNamesComplete(lines: seq<string>, k: nat)
    requires ListModules(lines).Ok? && k < |lines|
    ensures ListModules(lines[..k]).Ok? && ListModules(lines[..k + 1]).Ok?
    ensures Contributes(lines, k) ==> Words(lines[k])[0] in ListModules(lines).value.names
    ensures (k == 0 || lines[k - 1] == "") ==>
      ListModules(lines[..k + 1]).value.names == ListModules(lines[..k]).value.names
  {
    if ListModules(lines[..k + 1]).Err? {
      ListModulesErrSticks(lines, k + 1);
    }
    assert lines[..k + 1][..k] == lines[..k];
    ListModulesNames(lines[..k + 1]);
    ListModulesNames(lines);
    ListedNamesPrefix(lines, k + 1);
    if Contributes(lines, k) {
      assert lines[..k + 1][k] == lines[k];
      assert lines[..k + 1][k - 1] == lines[k - 1];
      assert Words(lines[k])[0] in ListedNames(lines[..k + 1]);
    }
  }

  /** `ListedNames` of a prefix is a prefix of `ListedNames`. */
  lemma {:induction false} ListedNamesPrefix(lines: seq<string>, n: nat)
    requires n <= |lines|
    ensures ListedNames(lines[..n]) <= ListedNames(lines)
    decreases |lines| - n
  {
    if n < |lines| {
      assert lines[..n + 1][..n] == lines[..n];
      ListedNamesPrefix(lines, n + 1);
    } else {
      assert lines[..n] == lines;
    }
  }

  /** The command `get_modules` runs for the sorted names. */
  function ModuleInfoCommand(names: seq<string>, repos: seq<string>): seq<string>
  {
    DnfBaseCommand + ["module", "info"] + RepoArgs(repos) + names
  }

  // parse_module

  /** `res["metadata"]`: the recorded keys, with the artifacts list kept apart. */
  datatype ModuleInfo = ModuleInfo(metadata: map<string, string>, artifacts: seq<string>)

  predicate IsInfoKey(k: string) { k == "Name" || k == "Stream" || k == "Version" || k == "Context" }

  /** The inner loop over the lines after "Artifacts": the second column of each ": x" line. */
  function ArtifactLines(lines: seq<string>): (r: Result<seq<string>>)
    ensures r.Ok? ==> |r.value| <= |lines|
  {
    if lines == [] then Ok([])
    else match ArtifactLines(lines[..|lines| - 1])
      case Err(e) => Err(e)
      case Ok(arts) =>
        var pieces := Words(lines[|lines| - 1]);
        if |pieces| == 0 then Err(IndexError)
        else if pieces[0] == ":" && |pieces| > 1 then Ok(arts + [pieces[1]])
        else Ok(arts)
  }

  /** The loop of `parse_module` from line `i`, with what it has recorded so far. */
  function ParseFrom(lines: seq<string>, i: nat, info: ModuleInfo): Result<ModuleInfo>
    decreases |lines| - i
  {
    if i >= |lines| then Ok(info)
    else
      var pieces := Words(lines[i]);
      if |pieces| == 0 then Err(IndexError)
      else if IsInfoKey(pieces[0]) then
        if |pieces| < 3 then Err(IndexError)
        else ParseFrom(lines, i + 1, info.(metadata := info.metadata[Lower(pieces[0]) := pieces[2]]))
      else if pieces[0] == "Artifacts" then
        var first := if |pieces| > 2 then [pieces[2]] else [];
        match ArtifactLines(lines[i + 1..])
        case Err(e) => Err(e)
        case Ok(rest) => Ok(info.(artifacts := info.artifacts + first + rest))
      else ParseFrom(lines, i + 1, info)
  }

  /** `Yum.parse_module` */
  function ParseModule(lines: seq<string>): Result<ModuleInfo>
  {
    ParseFrom(lines, 0, ModuleInfo(map[], []))
  }

  /** The artifact loop, which runs to the end of the block. */
  method CollectArtifacts(lines: seq<string>) returns (r: Result<seq<string>>)
    ensures r == ArtifactLines(lines)
  {
    var arts: seq<string> := [];
    var k := 0;
    while k < |lines|
      invariant 0 <= k <= |lines|
      invariant ArtifactLines(lines[..k]) == Ok(arts)
    {
      assert lines[..k + 1][..k] == lines[..k];
      var pieces := Words(lines[k]);
      if |pieces| == 0 {
        ArtifactLinesErrSticks(lines, k + 1);
        return Err(IndexError);
      }
      if pieces[0] == ":" && |pieces| > 1 {
        arts := arts + [pieces[1]];
      }
      k := k + 1;
    }
    assert lines[..|lines|] == lines;
    return Ok(arts);
  }

  lemma {:induction false} ArtifactLinesErrSticks(lines: seq<string>, n: nat)
    requires n <= |lines| && ArtifactLines(lines[..n]).Err?
    ensures ArtifactLines(lines) == ArtifactLines(lines[..n])
    decreases |lines| - n
  {
    if n < |lines| {
      assert lines[..n + 1][..n] == lines[..n];
      ArtifactLinesErrSticks(lines, n + 1);
    } else {
      assert lines[..n] == lines;
    }
  }

  /** The loop of `parse_module`, which stops at the artifacts. */
  method ParseModuleLines(lines: seq<string>) returns (r: Result<ModuleInfo>)
    ensures r == ParseModule(lines)
  {
    var info := ModuleInfo(map[], []);
    var i := 0;
    while i < |lines|
      invariant 0 <= i <= |lines|
      invariant ParseFrom(lines, i, info) == ParseModule(lines)
    {
      var pieces := Words(lines[i]);
      if |pieces| == 0 {
        return Err(IndexError);
      }
      if IsInfoKey(pieces[0]) {
        if |pieces| < 3 {
          return Err(IndexError);
        }
        info := info.(metadata := info.metadata[Lower(pieces[0]) := pieces[2]]);
      } else if pieces[0] == "Artifacts" {
        var first := if |pieces| > 2 then [pieces[2]] else [];
        var rest := CollectArtifacts(lines[i + 1..]);
        if rest.Err? {
          return Err(rest.error);
        }
        return Ok(info.(artifacts := info.artifacts + first + rest.value));
      }
      i := i + 1;
    }
    return Ok(info);
  }

  /** The metadata keys are the lower-cased info keys. */
  lemma {:induction false} ParseFromKeys(lines: seq<string>, i: nat, info: ModuleInfo)
    requires forall key :: key in info.metadata ==> IsMetadataKey(key)
    requires ParseFrom(lines, i, info).Ok?
    ensures forall key :: key in ParseFrom(lines, i, info).value.metadata ==> IsMetadataKey(key)
    ensures |info.artifacts| <= |ParseFrom(lines, i, info).value.artifacts|
    decreases |lines| - i
  {
    if i < |lines| {
      var pieces := Words(lines[i]);
      if IsInfoKey(pieces[0]) {
        var key := Lower(pieces[0]);
        InfoKeysLower(pieces[0]);
        ParseFromKeys(lines, i + 1, info.(metadata := info.metadata[key := pieces[2]]));
      } else if pieces[0] != "Artifacts" {
        ParseFromKeys(lines, i + 1, info);
      }
    }
  }

  /** The metadata keys that `_parse_module` stores: each info key in lower case. */
  predicate IsMetadataKey(k: string) { k == "name" || k == "stream" || k == "version" || k == "context" }

  lemma InfoKeysLower(k: string)
    requires IsInfoKey(k)
    ensures IsMetadataKey(Lower(k))
  {
    var t: string;
    if k == "Name" {
      t := "name";
    } else if k == "Stream" {
      t := "stream";
    } else if k == "Version" {
      t := "version";
    } else {
      t := "context";
    }
    assert forall i :: 0 <= i < |k| ==> LowerChar(k[i]) == t[i];
    assert Lower(k) == t;
  }

  /** Without an "Artifacts" line the artifacts list stays empty. */
  lemma {:induction false} NoArtifactsLine(lines: seq<string>, i: nat, info: ModuleInfo)
    requires forall j :: i <= j < |lines| && |Words(lines[j])| > 0 ==> Words(lines[j])[0] != "Artifacts"
    requires ParseFrom(lines, i, info).Ok?
    ensures ParseFrom(lines, i, info).value.artifacts == info.artifacts
    decreases |lines| - i
  {
    if i < |lines| {
      var pieces := Words(lines[i]);
      if IsInfoKey(pieces[0]) {
        NoArtifactsLine(lines, i + 1, info.(metadata := info.metadata[Lower(pieces[0]) := pieces[2]]));
      } else {
        NoArtifactsLine(lines, i + 1, info);
      }
    }
  }

  /** The index of the first "Artifacts" line from `i` on, or the end: where `parse_module` stops reading metadata. */
  function ArtifactsAt(lines: seq<string>, i: nat): (r: nat)
    requires i <= |lines|
    ensures i <= r <= |lines|
    ensures forall m :: i <= m < r ==> |Words(lines[m])| == 0 || Words(lines[m])[0] != "Artifacts"
    ensures r < |lines| ==> |Words(lines[r])| > 0 && Words(lines[r])[0] == "Artifacts"
    decreases |lines| - i
  {
    if i == |lines| then i
    else if |Words(lines[i])| > 0 && Words(lines[i])[0] == "Artifacts" then i
    else ArtifactsAt(lines, i + 1)
  }

  /** Distinct info keys are stored under distinct metadata keys. */
  lemma InfoKeysDistinct(k1: string, k2: string)
    requires IsInfoKey(k1) && IsInfoKey(k2) && k1 != k2
    ensures Lower(k1) != Lower(k2)
  {
    assert Lower(k1)[0] == LowerChar(k1[0]) && Lower(k2)[0] == LowerChar(k2[0]);
  }

  /** With no `key` line before the "Artifacts" line, the value recorded under the lower-cased key is left as it was. */
  lemma {:induction false} ParseFromKeyKept(lines: seq<string>, i: nat, info: ModuleInfo, key: string)
    requires IsInfoKey(key) && i <= |lines|
    requires forall m :: i <= m < ArtifactsAt(lines, i) ==> |Words(lines[m])| == 0 || Words(lines[m])[0] != key
    requires ParseFrom(lines, i, info).Ok?
    ensures Lower(key) in ParseFrom(lines, i, info).value.metadata <==> Lower(key) in info.metadata
    ensures Lower(key) in info.metadata ==> ParseFrom(lines, i, info).value.metadata[Lower(key)] == info.metadata[Lower(key)]
    decreases |lines| - i
  {
    if i < |lines| {
      var pieces := Words(lines[i]);
      if IsInfoKey(pieces[0]) {
        InfoKeysDistinct(pieces[0], key);
        ParseFromKeyKept(lines, i + 1, info.(metadata := info.metadata[Lower(pieces[0]) := pieces[2]]), key);
      } else if pieces[0] != "Artifacts" {
        ParseFromKeyKept(lines, i + 1, info, key);
      }
    }
  }

  /** The value recorded under a lower-cased key is the third column of the last line with that key before the "Artifacts" line. */
  lemma {:induction false} ParseFromLastKey(lines: seq<string>, i: nat, info: ModuleInfo, key: string, j: nat)
    requires IsInfoKey(key) && i <= |lines| && i <= j < ArtifactsAt(lines, i)
    requires |Words(lines[j])| > 0 && Words(lines[j])[0] == key
    requires forall m :: j < m < ArtifactsAt(lines, i) ==> |Words(lines[m])| == 0 || Words(lines[m])[0] != key
    requires ParseFrom(lines, i, info).Ok?
    ensures |Words(lines[j])| > 2
    ensures Lower(key) in ParseFrom(lines, i, info).value.metadata
    ensures ParseFrom(lines, i, info).value.metadata[Lower(key)] == Words(lines[j])[2]
    decreases |lines| - i
  {
    var pieces := Words(lines[i]);
    if i < j {
      if IsInfoKey(pieces[0]) {
        ParseFromLastKey(lines, i + 1, info.(metadata := info.metadata[Lower(pieces[0]) := pieces[2]]), key, j);
      } else {
        ParseFromLastKey(lines, i + 1, info, key, j);
      }
    } else {
      ParseFromKeyKept(lines, i + 1, info.(metadata := info.metadata[Lower(key) := pieces[2]]), key);
    }
  }

  // get_nevras_from_yum_repos

  const QueryFormat := "%{sourcerpm} %{name}:%{epoch}-%{version}-%{release}.%{arch}"

  /** The repoquery command: `--latest-limit=1` goes before the repo options. */
  function RepoqueryCommand(latest: bool, repos: seq<string>): (r: seq<string>)
    ensures |r| == 8 + (if latest then 1 else 0) + 2 * |repos|
    ensures latest ==> r[8] == "--latest-limit=1" && r[9..] == RepoArgs(repos)
    ensures !latest ==> r[8..] == RepoArgs(repos)
  {
    var base := DnfBaseCommand + ["--disable-modular-filtering", "repoquery", "--all", "--queryformat", QueryFormat];
    assert |base| == 8;
    base + (if latest then ["--latest-limit=1"] else []) + RepoArgs(repos)
  }

  /**
   * One output line as the (key, rpm) pair appended to the mapping, or nothing for a skipped source RPM. The
   * line must have exactly two columns, else unpacking raises ValueError, with Python's message for too few or
   * too many values.
   */
  function LinePair(line: string, ignoreSource: bool): Result<Option<(string, string)>>
  {
    var pieces := Words(line);
    if |pieces| < 2 then Err(ValueError("not enough values to unpack (expected 2, got " + NatToString(|pieces|) + ")"))
    else if |pieces| > 2 then Err(ValueError("too many values to unpack (expected 2)"))
    else
      var srpm := pieces[0];
      var rpm := pieces[1];
      if EndsWith(rpm, ".src") then
        if ignoreSource then Ok(None) else Ok(Some((ReplaceAll(rpm, ".src", ""), "")))
      else Ok(Some((ReplaceAll(srpm, ".src.rpm", ""), rpm)))
  }

  /** The pairs of all lines in order, or the first line's error. */
  function Pairs(lines: seq<string>, ignoreSource: bool): Result<seq<(string, string)>>
  {
    if lines == [] then Ok([])
    else match Pairs(lines[..|lines| - 1], ignoreSource)
      case Err(e) => Err(e)
      case Ok(ps) =>
        match LinePair(lines[|lines| - 1], ignoreSource)
        case Err(e) => Err(e)
        case Ok(None) => Ok(ps)
        case Ok(Some(p)) => Ok(ps + [p])
  }

  /** The `defaultdict(list)` fold: each pair's rpm appended under its key. */
  function GroupMap(pairs: seq<(string, string)>): map<string, seq<string>>
  {
    if pairs == [] then map[]
    else
      var m := GroupMap(pairs[..|pairs| - 1]);
      var (k, v) := pairs[|pairs| - 1];
      m[k := (if k in m then m[k] else []) + [v]]
  }

  /** The rpms of the pairs with key `k`, in order. */
  function Group(pairs: seq<(string, string)>, k: string): seq<string>
  {
    if pairs == [] then []
    else Group(pairs[..|pairs| - 1], k) + (if pairs[|pairs| - 1].0 == k then [pairs[|pairs| - 1].1] else [])
  }

  /** The mapping holds exactly the keys that occur, each with its rpms in input order. */
  lemma {:induction false} GroupMapIsGrouping(pairs: seq<(string, string)>)
    ensures forall k :: k in GroupMap(pairs) <==> Group(pairs, k) != []
    ensures forall k :: k in GroupMap(pairs) ==> GroupMap(pairs)[k] == Group(pairs, k)
  {
    if pairs != [] {
      GroupMapIsGrouping(pairs[..|pairs| - 1]);
    }
  }

  /** `Yum.get_nevras_from_yum_repos` after running the query. */
  method GetNevras(output: seq<string>, ignoreSource: bool) returns (r: Result<map<string, seq<string>>>)
    ensures Pairs(output, ignoreSource).Err? ==> r == Err(Pairs(output, ignoreSource).error)
    ensures Pairs(output, ignoreSource).Ok? ==> r == Ok(GroupMap(Pairs(output, ignoreSource).value))
  {
    var mapping: map<string, seq<string>> := map[];
    ghost var pairs: seq<(string, string)> := [];
    var i := 0;
    while i < |output|
      invariant 0 <= i <= |output|
      invariant Pairs(output[..i], ignoreSource) == Ok(pairs) && mapping == GroupMap(pairs)
    {
      PairsSnoc(output, i, ignoreSource);
      var pieces := Words(output[i]);
      if |pieces| < 2 {
        PairsErrSticks(output, ignoreSource, i + 1);
        return Err(ValueError("not enough values to unpack (expected 2, got " + NatToString(|pieces|) + ")"));
      }
      if |pieces| > 2 {
        PairsErrSticks(output, ignoreSource, i + 1);
        return Err(ValueError("too many values to unpack (expected 2)"));
      }
      var srpm := pieces[0];
      var rpm := pieces[1];
      if EndsWith(rpm, ".src") {
        if !ignoreSource {
          srpm := ReplaceAll(rpm, ".src", "");
          rpm := "";
          GroupMapSnoc(pairs, srpm, rpm);
          mapping := mapping[srpm := (if srpm in mapping then mapping[srpm] else []) + [rpm]];
          pairs := pairs + [(srpm, rpm)];
        }
      } else {
        srpm := ReplaceAll(srpm, ".src.rpm", "");
        GroupMapSnoc(pairs, srpm, rpm);
        mapping := mapping[srpm := (if srpm in mapping then mapping[srpm] else []) + [rpm]];
        pairs := pairs + [(srpm, rpm)];
      }
      i := i + 1;
    }
    assert output[..|output|] == output;
    return Ok(mapping);
  }

  /** One more line: its error, nothing, or its pair after the pairs of the lines before it. */
  lemma PairsSnoc(lines: seq<string>, i: nat, ignoreSource: bool)
    requires i < |lines| && Pairs(lines[..i], ignoreSource).Ok?
    ensures Pairs(lines[..i + 1], ignoreSource) ==
            match LinePair(lines[i], ignoreSource)
            case Err(e) => Err(e)
            case Ok(None) => Pairs(lines[..i], ignoreSource)
            case Ok(Some(p)) => Ok(Pairs(lines[..i], ignoreSource).value + [p])
  {
    assert lines[..i + 1][..i] == lines[..i];
  }

  /** One more pair appends its rpm under its key. */
  lemma GroupMapSnoc(pairs: seq<(string, string)>, k: string, v: string)
    ensures GroupMap(pairs + [(k, v)]) ==
            GroupMap(pairs)[k := (if k in GroupMap(pairs) then GroupMap(pairs)[k] else []) + [v]]
  {
    assert (pairs + [(k, v)])[..|pairs|] == pairs;
  }

  lemma {:induction false} PairsErrSticks(lines: seq<string>, ignoreSource: bool, n: nat)
    requires n <= |lines| && Pairs(lines[..n], ignoreSource).Err?
    ensures Pairs(lines, ignoreSource) == Pairs(lines[..n], ignoreSource)
    decreases |lines| - n
  {
    if n < |lines| {
      assert lines[..n + 1][..n] == lines[..n];
      PairsErrSticks(lines, ignoreSource, n + 1);
    } else {
      assert lines[..n] == lines;
    }
  }

  /** With `ignore_source`, no source RPM is recorded. */
  lemma {:induction false} IgnoreSourceSkipsSrc(lines: seq<string>)
    requires Pairs(lines, true).Ok?
    ensures forall p :: p in Pairs(lines, true).value ==> !EndsWith(p.1, ".src")
  {
    if lines != [] {
      IgnoreSourceSkipsSrc(lines[..|lines| - 1]);
    }
  }
}
