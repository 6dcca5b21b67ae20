/** `read_git_refs` of setup.py, over the already-captured standard output
    of `git log -1 --format=%H` and `git show-ref --head`. The script
    decides whether the checked-out commit (HEAD) is also the tip of a
    remote release branch, `refs/remotes/origin/rel-*`. */
module GitRefs {
  import opened PyStr
  import opened Results

  const ReleaseRefPrefix: string := "refs/remotes/origin/rel-"
  const LineEnds: set<char> := {'\n', '\r'}

  /** What `read_git_refs` returns: the release-branch flag and HEAD's id. */
  datatype Refs = Refs(onReleaseBranch: bool, head: string)

  /** `dedent(line).strip('\n\r')`, applied to the `git log` line and to
      every `git show-ref` line. */
  function CleanLine(line: string): (r: string)
    ensures exists a :: MiddleAt(Dedent(line), r, LineEnds, a)
    ensures r == [] || (r[0] !in LineEnds && r[|r| - 1] !in LineEnds)
    ensures NoLineBreak(line) ==> r == Dedent(line)
  {
    var d := Dedent(line);
    assert NoLineBreak(line) ==> Strip(d, LineEnds) == d by {
      if NoLineBreak(line) {
        DedentHasNoLineEnds(line);
        StripKeeps(d, LineEnds);
      }
    }
    Strip(d, LineEnds)
  }

  /** A line without line boundaries keeps none after dedenting, so
      there is no line feed or carriage return to strip. */
  lemma DedentHasNoLineEnds(line: string)
    requires NoLineBreak(line)
    ensures forall k :: 0 <= k < |Dedent(line)| ==> Dedent(line)[k] !in LineEnds
  {
    var d := Dedent(line);
    var n := |line| - |d|;
    forall k | 0 <= k < |d|
      ensures d[k] !in LineEnds
    {
      assert d[k] == line[n + k];
      assert !IsLineBreak(line[n + k]);
    }
  }

  /** Every line cleaned, in order: the first statement of the loop body. */
  function CleanLines(lines: seq<string>): (cleaned: seq<string>)
    ensures |cleaned| == |lines|
    ensures forall k :: 0 <= k < |lines| ==> cleaned[k] == CleanLine(lines[k])
  {
    seq(|lines|, k requires 0 <= k < |lines| => CleanLine(lines[k]))
  }

  /** A cleaned show-ref line that the loop inspects: it starts with
      HEAD's id. */
  predicate NamesHead(head: string, line: string) {
    StartsWith(line, head)
  }

  /** An inspected line that the two-name unpacking rejects. */
  predicate MalformedRef(head: string, line: string) {
    NamesHead(head, line) && |Split(line, ' ')| != 2
  }

  /** An inspected line whose ref name is a remote release branch. */
  predicate ReleaseRef(head: string, line: string) {
    && NamesHead(head, line)
    && var fields := Split(line, ' ');
    && |fields| == 2
    && StartsWith(fields[1], ReleaseRefPrefix)
  }

  /** The `for` loop over the cleaned show-ref lines, with `release` the
      flag's value before `lines`. The loop stops with an error at the
      first inspected line that is not `<id> <ref>`; the flag is only
      ever set, never cleared. */
  function ScanRefs(head: string, lines: seq<string>, release: bool): (r: Result<bool>)
    ensures r.Err? <==> exists line :: line in lines && MalformedRef(head, line)
    ensures r.Err? ==> r.error == MalformedShowRef
    ensures r.Ok? ==> (r.value <==> release || exists line :: line in lines && ReleaseRef(head, line))
    decreases |lines|
  {
    if lines == [] then Ok(release)
    else
      var line := lines[0];
      var rest := lines[1..];
      assert lines == [line] + rest;
      if StartsWith(line, head) then
        var fields := Split(line, ' ');
        if |fields| != 2 then
          assert MalformedRef(head, line);
          Err(MalformedShowRef)
        else
          ScanRefs(head, rest, release || StartsWith(fields[1], ReleaseRefPrefix))
      else
        ScanRefs(head, rest, release)
  }

  /** Lines 26-30: HEAD's commit id, the first line of the `git log`
      output with its indentation removed. Empty output has no first line. */
  function HeadId(logOut: string): (r: Result<string>)
    ensures r.Err? <==> logOut == []
    ensures r.Err? ==> r.error == NoHeadLine
    ensures r.Ok? ==> var first := SplitLines(logOut)[0];
                      var n := |first| - |r.value|;
                      && 0 <= n
                      && AllInRange(first, 0, n, Indent)
                      && first[n..] == r.value
                      && (r.value == [] || r.value[0] !in Indent)
    ensures r.Ok? ==> NoLineBreak(r.value)
  {
    var lines := SplitLines(logOut);
    if lines == [] then Err(NoHeadLine)
    else
      DedentUnbroken(lines[0]);
      Ok(CleanLine(lines[0]))
  }

  /** The cleaned lines are exactly the cleanings of the lines. */
  lemma CleanLinesMembers(lines: seq<string>)
    ensures forall line :: line in lines ==> CleanLine(line) in CleanLines(lines)
    ensures forall c :: c in CleanLines(lines) ==> exists line :: line in lines && c == CleanLine(line)
  {
    var cleaned := CleanLines(lines);
    forall line | line in lines
      ensures CleanLine(line) in cleaned
    {
      var k :| 0 <= k < |lines| && lines[k] == line;
      assert cleaned[k] == CleanLine(line);
    }
    forall c | c in cleaned
      ensures exists line :: line in lines && c == CleanLine(line)
    {
      var k :| 0 <= k < |cleaned| && cleaned[k] == c;
      assert lines[k] in lines;
    }
  }

  /** `read_git_refs` with the two git invocations replaced by their output. */
  function ReadGitRefs(logOut: string, showRefOut: string): (r: Result<Refs>)
    ensures logOut == [] ==> r == Err(NoHeadLine)
    ensures logOut != [] ==>
              var lines := CleanLines(SplitLines(showRefOut));
              var head := HeadId(logOut).value;
              && (r.Err? <==> exists line :: line in lines && MalformedRef(head, line))
              && (r.Err? ==> r.error == MalformedShowRef)
              && (r.Ok? ==> r.value.head == head)
              && (r.Ok? ==> (r.value.onReleaseBranch <==> exists line :: line in lines && ReleaseRef(head, line)))
  {
    match HeadId(logOut)
    case Err(e) => Err(e)
    case Ok(head) =>
      match ScanRefs(head, CleanLines(SplitLines(showRefOut)), false)
      case Err(e) => Err(e)
      case Ok(release) => Ok(Refs(release, head))
  }

  /** The scan's outcome depends only on which lines occur, not on their
      order or repetition. */
  lemma ScanOrderIrrelevant(head: string, a: seq<string>, b: seq<string>, release: bool)
    requires forall line :: line in a <==> line in b
    ensures ScanRefs(head, a, release) == ScanRefs(head, b, release)
  {
  }

  /** Reordering (or repeating) the lines of the `git show-ref` output
      changes nothing: the flag is only ever set to true. */
  lemma RefOrderIrrelevant(logOut: string, outA: string, outB: string)
    requires forall line :: line in SplitLines(outA) <==> line in SplitLines(outB)
    ensures ReadGitRefs(logOut, outA) == ReadGitRefs(logOut, outB)
  {
    if logOut != [] {
      ScanSameRawLines(HeadId(logOut).value, SplitLines(outA), SplitLines(outB));
    }
  }

  /** Scanning two lists with the same raw lines gives the same outcome. */
  lemma ScanSameRawLines(head: string, a: seq<string>, b: seq<string>)
    requires forall line :: line in a <==> line in b
    ensures ScanRefs(head, CleanLines(a), false) == ScanRefs(head, CleanLines(b), false)
  {
    SameLinesSameCleaned(a, b);
    ScanOrderIrrelevant(head, CleanLines(a), CleanLines(b), false);
  }

  /** Lists with the same lines have the same cleaned lines. */
  lemma SameLinesSameCleaned(a: seq<string>, b: seq<string>)
    requires forall line :: line in a <==> line in b
    ensures forall c :: c in CleanLines(a) <==> c in CleanLines(b)
  {
    CleanLinesMembers(a);
    CleanLinesMembers(b);
  }

  /** HEAD's id printed by `git log` on a line of its own is read back
      exactly. */
  lemma HeadIdOfLog(id: string)
    requires id != [] && NoLineBreak(id) && id[0] !in Indent
    ensures HeadId(id + "\n") == Ok(id)
  {
    assert JoinLines([id]) == id + "\n";
    SplitLinesJoinLines([id]);
    DedentUnindented(id);
  }

  /** `read_git_refs` over well-formed output: HEAD's id on its own line,
      and show-ref lines none of which is a malformed line for HEAD. The
      flag is set exactly when one of the lines, cleaned, names HEAD with
      a release branch. */
  lemma ReadGitRefsOfLines(id: string, refLines: seq<string>)
    requires id != [] && NoLineBreak(id) && id[0] !in Indent
    requires forall k :: 0 <= k < |refLines| ==> NoLineBreak(refLines[k])
    requires forall k :: 0 <= k < |refLines| ==> !MalformedRef(id, CleanLine(refLines[k]))
    ensures ReadGitRefs(id + "\n", JoinLines(refLines)).Ok?
    ensures ReadGitRefs(id + "\n", JoinLines(refLines)).value.head == id
    ensures ReadGitRefs(id + "\n", JoinLines(refLines)).value.onReleaseBranch
            <==> exists k :: 0 <= k < |refLines| && ReleaseRef(id, CleanLine(refLines[k]))
  {
    HeadIdOfLog(id);
    SplitLinesJoinLines(refLines);
    ReadGitRefsOfHead(id + "\n", JoinLines(refLines), id);
    ScanOfLines(id, refLines);
  }

  /** Once HEAD's id is known, `read_git_refs` is the scan of the
      cleaned show-ref lines. */
  lemma ReadGitRefsOfHead(logOut: string, showRefOut: string, id: string)
    requires HeadId(logOut) == Ok(id)
    ensures var scan := ScanRefs(id, CleanLines(SplitLines(showRefOut)), false);
            ReadGitRefs(logOut, showRefOut) == if scan.Ok? then Ok(Refs(scan.value, id)) else Err(scan.error)
  {
  }

  /** The scan of cleaned lines none of which is malformed for HEAD
      succeeds, and finds a release branch exactly when one of them
      names one. */
  lemma ScanOfLines(id: string, refLines: seq<string>)
    requires forall k :: 0 <= k < |refLines| ==> !MalformedRef(id, CleanLine(refLines[k]))
    ensures ScanRefs(id, CleanLines(refLines), false).Ok?
    ensures ScanRefs(id, CleanLines(refLines), false).value
            <==> exists k :: 0 <= k < |refLines| && ReleaseRef(id, CleanLine(refLines[k]))
  {
    CleanedLinesOf(id, refLines);
  }

  /** Which cleaned lines are malformed or name a release branch, stated
      by position in the raw lines. */
  lemma CleanedLinesOf(id: string, refLines: seq<string>)
    ensures (exists line :: line in CleanLines(refLines) && MalformedRef(id, line))
            <==> exists k :: 0 <= k < |refLines| && MalformedRef(id, CleanLine(refLines[k]))
    ensures (exists line :: line in CleanLines(refLines) && ReleaseRef(id, line))
            <==> exists k :: 0 <= k < |refLines| && ReleaseRef(id, CleanLine(refLines[k]))
  {
    CleanedSatisfying(refLines, line => MalformedRef(id, line));
    CleanedSatisfying(refLines, line => ReleaseRef(id, line));
  }

  /** Some cleaned line has a property exactly when the cleaning of some
      raw line has it. */
  lemma CleanedSatisfying(refLines: seq<string>, p: string -> bool)
    ensures (exists line :: line in CleanLines(refLines) && p(line))
            <==> exists k :: 0 <= k < |refLines| && p(CleanLine(refLines[k]))
  {
    var cleaned := CleanLines(refLines);
    if exists line :: line in cleaned && p(line) {
      var line :| line in cleaned && p(line);
      var k :| 0 <= k < |cleaned| && cleaned[k] == line;
      assert p(CleanLine(refLines[k]));
    }
    if exists k :: 0 <= k < |refLines| && p(CleanLine(refLines[k])) {
      var k :| 0 <= k < |refLines| && p(CleanLine(refLines[k]));
      assert cleaned[k] in cleaned;
    }
  }
}
