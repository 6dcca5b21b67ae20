/** `read_version` of setup.py: the package version read from the text of
    `onnxruntime_extensions/_version.py`, decorated with a short commit id
    on a development checkout. Whether `.git` exists and what git prints
    are parameters. */
module Version {
  import opened PyStr
  import opened Results
  import GitRefs

  const VersionKey: string := "__version__"
  const DefaultVersion: string := "1.0.0"
  /** The characters `strip('" \n\r')` removes from the assigned value. */
  const ValueTrim: set<char> := {'"', ' ', '\n', '\r'}
  /** How many characters of the commit id a development version carries. */
  const ShortIdLength: nat := 7

  /** The inner comprehension of line 54: every line of the file
      dedented, in order. */
  function DedentLines(lines: seq<string>): (dedented: seq<string>)
    ensures |dedented| == |lines|
    ensures forall k :: 0 <= k < |lines| ==> dedented[k] == Dedent(lines[k])
  {
    seq(|lines|, k requires 0 <= k < |lines| => Dedent(lines[k]))
  }

  /** A dedented line that the script takes for the version assignment. */
  predicate IsVersionLine(line: string) {
    StartsWith(line, VersionKey)
  }

  /** None of the dedented `lines` is a version line. */
  predicate NoVersionLine(lines: seq<string>) {
    forall i :: 0 <= i < |lines| ==> !IsVersionLine(lines[i])
  }

  /** `i` is the first version line among the dedented `lines`. */
  predicate FirstVersionLineAt(lines: seq<string>, i: int) {
    && 0 <= i < |lines|
    && IsVersionLine(lines[i])
    && forall j :: 0 <= j < i ==> !IsVersionLine(lines[j])
  }

  /** The outer comprehension of line 54: the dedented lines that start
      with `__version__`, in file order. */
  function VersionLines(lines: seq<string>): (found: seq<string>)
    ensures forall k :: 0 <= k < |found| ==> IsVersionLine(found[k])
    ensures found == [] <==> NoVersionLine(lines)
    ensures found != [] ==> exists i :: FirstVersionLineAt(lines, i) && found[0] == lines[i]
    decreases |lines|
  {
    if lines == [] then []
    else
      var rest := VersionLines(lines[1..]);
      assert forall i :: 1 <= i < |lines| ==> lines[i] == lines[1..][i - 1];
      if IsVersionLine(lines[0]) then
        assert FirstVersionLineAt(lines, 0);
        [lines[0]] + rest
      else
        assert rest != [] ==> exists i :: FirstVersionLineAt(lines, i) && rest[0] == lines[i] by {
          if rest != [] {
            var i :| FirstVersionLineAt(lines[1..], i) && rest[0] == lines[1..][i];
            assert FirstVersionLineAt(lines, i + 1);
          }
        }
        rest
  }

  /** `line.split('=')[1].strip('" \n\r')`: the text between the line's
      first and second `=` (or its end), without surrounding quotes,
      blanks and line endings. A line without `=` has no such field. */
  function AssignedValue(line: string): (r: Result<string>)
    ensures r.Err? <==> '=' !in line
    ensures r.Err? ==> r.error == NoVersionValue
    ensures r.Ok? ==> var a := IndexOf(line, '=');
                      var after := line[a + 1..];
                      r.value == Strip(after[..IndexOf(after, '=')], ValueTrim)
  {
    var fields := Split(line, '=');
    if |fields| < 2 then Err(NoVersionValue)
    else
      SplitHead(line, '=');
      SplitHead(line[IndexOf(line, '=') + 1..], '=');
      Ok(Strip(fields[1], ValueTrim))
  }

  /** Lines 54-56 over the dedented lines of the file: the value of the
      first version line, or the default when there is none. */
  function VersionFromLines(lines: seq<string>): (r: Result<string>)
    ensures NoVersionLine(lines) ==> r == Ok(DefaultVersion)
    ensures forall i :: FirstVersionLineAt(lines, i) ==> r == AssignedValue(lines[i])
  {
    var found := VersionLines(lines);
    if found == [] then Ok(DefaultVersion) else AssignedValue(found[0])
  }

  /** Lines 52-56: the version named in the version file, or the default
      when no line assigns one. Only the first assignment counts. */
  function ParseVersion(text: string): (r: Result<string>)
    ensures r.Err? ==> r == Err(NoVersionValue)
    ensures NoVersionLine(DedentLines(ReadLines(text))) ==> r == Ok(DefaultVersion)
    ensures forall i :: FirstVersionLineAt(DedentLines(ReadLines(text)), i) ==>
              var line := DedentLines(ReadLines(text))[i];
              r == AssignedValue(line) && (r.Err? <==> '=' !in line)
  {
    VersionFromLines(DedentLines(ReadLines(text)))
  }

  /** Lines 59-62 once the file is parsed: `gitRefs` is what
      `read_git_refs` produced, or `None` when there is no `.git`
      directory. A development checkout gets `+` and a prefix of HEAD's id
      of length min(7, |id|); a release branch keeps the base version. */
  function Decorate(base: string, gitRefs: Option<Result<GitRefs.Refs>>): (r: Result<string>)
    ensures gitRefs.None? ==> r == Ok(base)
    ensures gitRefs.Some? && gitRefs.value.Err? ==> r == Err(gitRefs.value.error)
    ensures gitRefs.Some? && gitRefs.value.Ok? ==>
              var refs := gitRefs.value.value;
              && r.Ok?
              && StartsWith(r.value, base)
              && (refs.onReleaseBranch ==> r.value == base)
              && (!refs.onReleaseBranch ==>
                    && |r.value| == |base| + 1 + Min(ShortIdLength, |refs.head|)
                    && r.value[|base|] == '+'
                    && StartsWith(refs.head, r.value[|base| + 1..]))
  {
    match gitRefs
    case None => Ok(base)
    case Some(Err(e)) => Err(e)
    case Some(Ok(refs)) =>
      if refs.onReleaseBranch then Ok(base)
      else
        var v := base + "+" + Slice(refs.head, 0, ShortIdLength);
        assert v[..|base|] == base;
        assert v[|base| + 1..] == refs.head[..Min(ShortIdLength, |refs.head|)];
        Ok(v)
  }

  /** `read_version`: the parsed version, decorated on a checkout with a
      `.git` directory. A failure in reading the file comes first; git is
      consulted only when `.git` exists. */
  function ReadVersion(versionText: string, hasGit: bool, logOut: string, showRefOut: string): (r: Result<string>)
    ensures ParseVersion(versionText).Err? ==> r == ParseVersion(versionText)
    ensures !hasGit ==> r == ParseVersion(versionText)
    ensures hasGit && ParseVersion(versionText).Ok? ==>
              r == Decorate(ParseVersion(versionText).value, Some(GitRefs.ReadGitRefs(logOut, showRefOut)))
  {
    match ParseVersion(versionText)
    case Err(e) => Err(e)
    case Ok(base) =>
      Decorate(base, if hasGit then Some(GitRefs.ReadGitRefs(logOut, showRefOut)) else None)
  }

  // ---------------------------------------------------------------------
  // Properties of the version file parse

  /** A file of one line, ending in a line feed, whose line is a version
      assignment: its value is read from that line. */
  lemma OneLineFile(line: string)
    requires '\n' !in line
    requires IsVersionLine(line)
    ensures ParseVersion(line + "\n") == AssignedValue(line + "\n")
  {
    var t := line + "\n";
    ReadOneLine(line);
    StartsWithAppend(line, VersionKey, "\n");
    assert t[0] == line[0] == VersionKey[0];
    DedentUnindented(t);
    FirstLineOnly(t);
  }

  /** The file of the single line `t`, a version assignment. */
  lemma FirstLineOnly(t: string)
    requires ReadLines(t) == [t]
    requires Dedent(t) == t
    requires IsVersionLine(t)
    ensures ParseVersion(t) == AssignedValue(t)
  {
    assert DedentLines([t])[0] == t;
    assert FirstVersionLineAt(DedentLines([t]), 0);
  }

  /** `__version__ =` followed by a value wrapped in stripped characters
      (quotes, blanks) reads back as that value. */
  lemma AssignmentRead(pre: string, v: string, post: string)
    requires AllIn(pre, ValueTrim) && AllIn(post, ValueTrim)
    requires v == [] || (v[0] !in ValueTrim && v[|v| - 1] !in ValueTrim)
    requires '=' !in pre + v + post && '\n' !in pre + v + post
    ensures ParseVersion(VersionKey + " =" + pre + v + post + "\n") == Ok(v)
  {
    var line := VersionKey + " =" + pre + v + post;
    AssignmentLine(pre + v + post);
    OneLineFile(line);
    AssignedValueRead(pre, v, post);
  }

  /** An assignment line is a version line without a line feed. */
  lemma AssignmentLine(rhs: string)
    requires '\n' !in rhs
    ensures IsVersionLine(VersionKey + " =" + rhs)
    ensures '\n' !in VersionKey + " =" + rhs
  {
    var line := VersionKey + " =" + rhs;
    assert line[..|VersionKey|] == VersionKey;
    assert line == (VersionKey + " =") + rhs;
  }

  /** The assigned value of such a line is the wrapped value. */
  lemma AssignedValueRead(pre: string, v: string, post: string)
    requires AllIn(pre, ValueTrim) && AllIn(post, ValueTrim)
    requires v == [] || (v[0] !in ValueTrim && v[|v| - 1] !in ValueTrim)
    requires '=' !in pre + v + post && '\n' !in pre + v + post
    ensures AssignedValue(VersionKey + " =" + pre + v + post + "\n") == Ok(v)
  {
    var after := pre + v + (post + "\n");
    AssignmentShape(pre, v, post);
    NoEqualsAfter(pre + v + post);
    AssignedValueSingle(VersionKey + " ", after);
    AllInLineFeed(post);
    StripExact(pre, v, post + "\n", ValueTrim);
  }

  /** The text of an assignment line, cut at its `=`. */
  lemma AssignmentShape(pre: string, v: string, post: string)
    ensures VersionKey + " =" + pre + v + post + "\n" == (VersionKey + " ") + "=" + (pre + v + (post + "\n"))
  {
  }

  /** A line feed appended to a text without `=` adds none. */
  lemma NoEqualsAfter(t: string)
    requires '=' !in t
    ensures '=' !in t + "\n"
  {
    assert forall k :: 0 <= k < |t| ==> (t + "\n")[k] == t[k];
  }

  /** A line feed is among the stripped characters. */
  lemma AllInLineFeed(post: string)
    requires AllIn(post, ValueTrim)
    ensures AllIn(post + "\n", ValueTrim)
  {
  }

  /** A line with exactly one `=` assigns the stripped text after it. */
  lemma AssignedValueSingle(key: string, after: string)
    requires '=' !in key && '=' !in after
    ensures AssignedValue(key + "=" + after) == Ok(Strip(after, ValueTrim))
  {
    var t := key + "=" + after;
    IndexOfAfterFree(key, "=" + after, '=');
    assert t == key + ("=" + after);
    assert t[|key| + 1..] == after;
    IndexOfAbsent(after, '=');
    assert after[..|after|] == after;
  }

  /** `__version__ = "v"` reads back as `v`. */
  lemma QuotedVersionRoundTrip(v: string)
    requires v == [] || (v[0] !in ValueTrim && v[|v| - 1] !in ValueTrim)
    requires '=' !in v && '\n' !in v
    ensures ParseVersion(VersionKey + " = \"" + v + "\"\n") == Ok(v)
  {
    assert VersionKey + " = \"" + v + "\"\n" == VersionKey + " =" + " \"" + v + "\"" + "\n";
    AssignmentRead(" \"", v, "\"");
  }

  /** Single quotes are not among the stripped characters: they stay part
      of the version. */
  lemma SingleQuotesKept()
    ensures ParseVersion("__version__ = '0.3.0'\n") == Ok("'0.3.0'")
  {
    assert "__version__ = '0.3.0'\n" == VersionKey + " =" + " " + "'0.3.0'" + "" + "\n";
    AssignmentRead(" ", "'0.3.0'", "");
  }

  /** A one-line file whose version line has no `=` fails to parse. */
  lemma AssignmentWithoutValueFails(line: string)
    requires '\n' !in line && '=' !in line
    requires IsVersionLine(line)
    ensures ParseVersion(line + "\n") == Err(NoVersionValue)
  {
    OneLineFile(line);
    NoEqualsAfter(line);
  }

  /** The bare key `__version__` on a line makes the parse fail. */
  lemma KeyWithoutValueFails()
    ensures ParseVersion(VersionKey + "\n") == Err(NoVersionValue)
  {
    assert VersionKey[..|VersionKey|] == VersionKey;
    assert '=' !in VersionKey && '\n' !in VersionKey;
    AssignmentWithoutValueFails(VersionKey);
  }

  /** Lines after a version line do not change the parse of the lines. */
  lemma VersionFromLinesPrefix(a: seq<string>, b: seq<string>)
    requires exists i :: 0 <= i < |a| && IsVersionLine(a[i])
    ensures VersionFromLines(a + b) == VersionFromLines(a)
  {
    var found := VersionLines(a);
    var i :| FirstVersionLineAt(a, i) && found[0] == a[i];
    assert (a + b)[i] == a[i];
    assert forall j :: 0 <= j < i ==> (a + b)[j] == a[j];
    assert FirstVersionLineAt(a + b, i);
  }

  /** Dedenting is line by line. */
  lemma DedentLinesAppend(a: seq<string>, b: seq<string>)
    ensures DedentLines(a + b) == DedentLines(a) + DedentLines(b)
  {
  }

  /** Once a version line has been read, later lines cannot change the
      result: only the first assignment counts. */
  lemma LaterLinesIgnored(head: string, tail: string)
    requires head == [] || head[|head| - 1] == '\n'
    requires exists i :: 0 <= i < |ReadLines(head)| && IsVersionLine(Dedent(ReadLines(head)[i]))
    ensures ParseVersion(head + tail) == ParseVersion(head)
  {
    var a := ReadLines(head);
    ReadLinesAppend(head, tail);
    DedentLinesAppend(a, ReadLines(tail));
    var da := DedentLines(a);
    assert exists i :: 0 <= i < |da| && IsVersionLine(da[i]) by {
      var i :| 0 <= i < |a| && IsVersionLine(Dedent(a[i]));
      assert IsVersionLine(da[i]);
    }
    VersionFromLinesPrefix(da, DedentLines(ReadLines(tail)));
  }

  // ---------------------------------------------------------------------
  // Properties of the decorated version

  /** With no `__version__` line and no `.git` directory the version is
      exactly the default. */
  lemma DefaultVersionWithoutKey(versionText: string, logOut: string, showRefOut: string)
    requires forall k :: 0 <= k < |ReadLines(versionText)| ==> !IsVersionLine(Dedent(ReadLines(versionText)[k]))
    ensures ReadVersion(versionText, false, logOut, showRefOut) == Ok(DefaultVersion)
  {
    var lines := DedentLines(ReadLines(versionText));
    assert forall k :: 0 <= k < |lines| ==> !IsVersionLine(lines[k]);
  }

  /** A development checkout: `git log` prints HEAD's id on a line of its
      own, and no show-ref line for HEAD is malformed or names a release
      branch. The version is the file's, `+`, and at most seven characters
      of the id. */
  lemma DevelopmentCheckout(versionText: string, id: string, refLines: seq<string>)
    requires ParseVersion(versionText).Ok?
    requires id != [] && NoLineBreak(id) && id[0] !in Indent
    requires forall k :: 0 <= k < |refLines| ==> NoLineBreak(refLines[k])
    requires forall k :: 0 <= k < |refLines| ==> !GitRefs.MalformedRef(id, GitRefs.CleanLine(refLines[k]))
    requires forall k :: 0 <= k < |refLines| ==> !GitRefs.ReleaseRef(id, GitRefs.CleanLine(refLines[k]))
    ensures ReadVersion(versionText, true, id + "\n", JoinLines(refLines))
            == Ok(ParseVersion(versionText).value + "+" + id[..Min(ShortIdLength, |id|)])
  {
    GitRefs.ReadGitRefsOfLines(id, refLines);
  }

  /** A release checkout: some show-ref line for HEAD names a remote
      release branch, and none is malformed. The version is the file's,
      undecorated. */
  lemma ReleaseCheckout(versionText: string, id: string, refLines: seq<string>, k: nat)
    requires id != [] && NoLineBreak(id) && id[0] !in Indent
    requires forall j :: 0 <= j < |refLines| ==> NoLineBreak(refLines[j])
    requires forall j :: 0 <= j < |refLines| ==> !GitRefs.MalformedRef(id, GitRefs.CleanLine(refLines[j]))
    requires k < |refLines| && GitRefs.ReleaseRef(id, GitRefs.CleanLine(refLines[k]))
    ensures ReadVersion(versionText, true, id + "\n", JoinLines(refLines)) == ParseVersion(versionText)
  {
    GitRefs.ReadGitRefsOfLines(id, refLines);
  }
}
