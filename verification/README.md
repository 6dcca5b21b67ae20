# The version and long description of the onnxruntime-extensions packaging script

`setup.py` of onnxruntime-extensions is mostly glue around scikit-build. Three
pieces of it are pure string logic, and this project models them in Dafny:

- `read_version` (setup.py:51-63). It reads the package version from the
  text of `onnxruntime_extensions/_version.py`. Only the first line that
  starts with `__version__` after dedenting counts. Its value is the text
  between the first and second `=`, with `"`, blanks, CR and LF trimmed. The
  default is `1.0.0`. Inside a git checkout that is not on a remote release
  branch, the version gets `+` and the first seven characters of HEAD's
  commit id.
- `read_git_refs` (setup.py:24-41). It finds HEAD's commit id in the output
  of `git log -1 --format=%H`. It then decides from `git show-ref --head`
  whether HEAD is the tip of a ref under `refs/remotes/origin/rel-`.
- The long description (setup.py:66-72). This is the slice of the project
  README from `# Introduction` up to `# Contributing`.

Every step of the source that runs a process or reads a file becomes a
parameter:

- the text of the version file;
- whether a `.git` directory exists;
- the captured standard output of the two git commands;
- the text of the README.

The script fails only by raising Python exceptions. They are modelled as a
`Result` whose `Error` names the exception's cause (module `Results`).

Modules:

- `PyStr` holds the Python `str` operations the script relies on, each with
  the contract Python gives it:
  - `startswith` and `find`;
  - slicing with negative-index normalisation;
  - `split` on one character;
  - `strip` with a character set;
  - `splitlines`;
  - `readlines`;
  - `textwrap.dedent` of a single line.
- `GitRefs` models `read_git_refs`.
- `Version` models `read_version`.
- `Description` models the long-description excerpt, both as written and as
  evidently intended (see Findings).

The excerpt code treats its two `find` results differently. Line 70 maps a
missing `# Introduction` (`find` gives -1) to offset 0. Line 71 passes a
missing `# Contributing`'s -1 straight into the slice, and `[start:-1]`
stops one character short of the end. The model follows the code in
`Description.LongDescription`. The evidently intended excerpt, which runs
to the end of the README, is `Description.IntendedLongDescription`. The
discrepancy is recorded under Findings.

## Model

| member | source | states |
|---|---|---|
| `PyStr.Find` | setup.py:69-71 | `find` is -1 exactly when the substring does not occur; otherwise it is the lowest offset of an occurrence |
| `PyStr.FindFirst` | setup.py:69-71 | whenever a first occurrence exists, `find` returns it |
| `PyStr.Mismatch` | setup.py:69-71 | one differing character rules out an occurrence at that offset |
| `PyStr.OccursInSlice` | setup.py:72 | an occurrence inside a slice is an occurrence in the whole text, lying within the slice's bounds |
| `PyStr.Slice` | setup.py:72 | `s[i:j]` with Python's slice rules for a non-negative start, the only kind the script passes: bounds are clamped to the length; a negative end counts from the back (`s[i:-1]` drops the last character) and gives the empty string when it reaches before the text; a start at or past the normalised end gives the empty string |
| `PyStr.Count` | setup.py:38 | the number of occurrences of a character is zero exactly when it does not occur |
| `PyStr.Split` | setup.py:38 | `split(sep)` yields one more field than there are separators, and no field holds the separator |
| `PyStr.JoinSplit` | setup.py:38 | joining the fields of `split(sep)` with `sep` gives back the text: only the separators are dropped |
| `PyStr.IndexOf` | setup.py:56 | the offset of the first occurrence of a character, or the length when it is absent |
| `PyStr.SplitHead` | setup.py:56 | the first field of `split` is the text before the first separator; the other fields are the split of what follows it |
| `PyStr.SplitJoin` | setup.py:38 | splitting a join of separator-free fields gives back the fields |
| `PyStr.SplitJoinStep` | setup.py:38 | a separator-free field followed by the separator splits off as the first field |
| `PyStr.SplitSingle` | setup.py:38 | a text without the separator splits into itself alone |
| `PyStr.IndexOfAfterFree` | setup.py:56 | past a prefix free of the character, the first occurrence is the prefix length plus its offset in the rest |
| `PyStr.SkipIn` | setup.py:30 | the leading run of characters from a set ends at the first character outside it, or at the end of the text |
| `PyStr.SkipInBack` | setup.py:56 | the trailing run of characters from a set begins just after the last character outside it, never before a given lower bound |
| `PyStr.Strip` | setup.py:56 | `strip(cs)` is a contiguous piece of the text whose ends are not in `cs`, and everything cut off on either side is in `cs` |
| `PyStr.StripExact` | setup.py:56 | stripping a value wrapped in characters of `cs`, whose own ends are not in `cs`, gives back exactly the value |
| `PyStr.StripKeeps` | setup.py:36 | a text with no character of `cs` is unchanged by `strip(cs)` |
| `PyStr.Dedent` | setup.py:54 | `dedent` of one line removes its leading blanks and tabs and nothing else |
| `PyStr.DedentUnindented` | setup.py:54 | a line that starts with neither a blank nor a tab is unchanged by `dedent` |
| `PyStr.SplitLines` | setup.py:35 | `splitlines` gives no lines exactly for the empty text; no line holds a line boundary; the first line is the text up to the first boundary; a non-empty text with no boundary is one line, itself, so an unterminated last line comes back exactly |
| `PyStr.BreakFromExact` | setup.py:35 | the search for a line boundary stops exactly at the first one |
| `PyStr.SplitLinesBreak` | setup.py:35 | for every one-character boundary (`\r` only when no `\n` follows), a boundary-free line ended by it is the first line and the rest of the text is split on its own, so every later line is kept |
| `PyStr.SplitLinesCrLf` | setup.py:35 | a boundary-free line ended by `\r\n` is the first line, the pair being one boundary, and the rest is split on its own |
| `PyStr.DedentUnbroken` | setup.py:30 | dedenting a line without line boundaries introduces none |
| `PyStr.SplitLinesJoinLines` | setup.py:35 | splitting boundary-free lines joined with line feeds gives back the lines |
| `PyStr.ReadLines` | setup.py:54 | `readlines` loses nothing: its lines concatenate back to the text |
| `PyStr.ReadLinesShape` | setup.py:54 | no line of `readlines` is empty or holds a line feed before its last character, and every line but the last ends in a line feed |
| `PyStr.ReadLinesCons` | setup.py:54 | the first line of `readlines` runs up to and including the first line feed |
| `PyStr.ReadOneLine` | setup.py:54 | a line without a line feed, ended by one, reads as that one line |
| `PyStr.StartsWithAppend` | setup.py:54 | appending to a text keeps every prefix it starts with |
| `PyStr.ReadLinesAppend` | setup.py:54 | reading two texts one after the other, the first ending in a line feed, gives the lines of both in order |
| `PyStr.IndexOfPrefix` | setup.py:54 | a character found in a prefix is found at the same offset in any extension of it |
| `GitRefs.CleanLines` | setup.py:36 | every show-ref line is dedented and stripped of CR and LF, in order and one for one |
| `GitRefs.ScanRefs` | setup.py:35-40 | the loop fails, with the unpacking error, exactly when some inspected line (one starting with HEAD's id) does not have exactly two space-separated fields; otherwise the flag is set exactly when some inspected line names a ref under `refs/remotes/origin/rel-`, and once set it stays set |
| `GitRefs.HeadId` | setup.py:26-30 | empty `git log` output fails for want of a first line; otherwise HEAD's id is the first line with its leading blanks and tabs removed, and it holds no line boundary |
| `GitRefs.CleanLine` | setup.py:36 | `dedent(line).strip('\n\r')` is a contiguous piece of the dedented line whose ends are neither CR nor LF, with only CR and LF cut off around it; on a line from `splitlines` it is just the dedented line |
| `GitRefs.DedentHasNoLineEnds` | setup.py:30 | a line without line boundaries holds no CR or LF once dedented |
| `GitRefs.CleanLinesMembers` | setup.py:36 | the cleaned lines are exactly the cleanings of the raw lines |
| `GitRefs.ReadGitRefs` | setup.py:24-41 | fails with the missing-line error on empty `git log` output, and otherwise with the unpacking error exactly when some cleaned show-ref line starting with HEAD's id is not `<id> <ref>`; on success HEAD's id is returned and the release flag holds exactly when some such line names a ref under `refs/remotes/origin/rel-` |
| `GitRefs.ScanOrderIrrelevant` | setup.py:35-41 | the scan's outcome depends only on which lines occur, not on their order or repetition |
| `GitRefs.SameLinesSameCleaned` | setup.py:36 | lists with the same lines have the same cleaned lines |
| `GitRefs.ScanSameRawLines` | setup.py:35-41 | scans of two lists with the same raw lines agree |
| `GitRefs.RefOrderIrrelevant` | setup.py:25-41 | reordering or repeating the lines of the `git show-ref` output does not change the result, because the flag is never reset |
| `GitRefs.HeadIdOfLog` | setup.py:26-30 | an unindented id printed by `git log` on a line of its own is read back exactly |
| `GitRefs.ReadGitRefsOfHead` | setup.py:30-41 | once HEAD's id is known, `read_git_refs` returns the scan's flag with that id, or the scan's error |
| `GitRefs.ScanOfLines` | setup.py:35-40 | when no cleaned line for HEAD is malformed, the scan succeeds and sets the flag exactly when one of the raw lines, cleaned, names HEAD with a release branch |
| `GitRefs.CleanedLinesOf` | setup.py:36-39 | a malformed or release line occurs among the cleaned lines exactly when the cleaning of some raw line is one |
| `GitRefs.CleanedSatisfying` | setup.py:36 | any property holds of some cleaned line exactly when it holds of the cleaning of some raw line |
| `GitRefs.ReadGitRefsOfLines` | setup.py:24-41 | for an id on its own line and show-ref lines none of which is malformed for HEAD, `read_git_refs` succeeds, returns the id, and sets the flag exactly when some line, cleaned, names HEAD with a release branch |
| `Version.DedentLines` | setup.py:54 | every line of the version file is dedented, in order and one for one |
| `Version.VersionLines` | setup.py:54 | the dedented lines starting with `__version__` are found; none are found exactly when there is no such line; the first one found is the first such line of the file |
| `Version.AssignedValue` | setup.py:56 | a version line without `=` fails (`split('=')[1]` does not exist); otherwise the value is the text between the first `=` and the next `=` or the end, stripped of `"`, blank, CR and LF |
| `Version.VersionFromLines` | setup.py:52-56 | with no version line the version is `1.0.0`; otherwise it is the value assigned on the first version line |
| `Version.ParseVersion` | setup.py:52-56 | with no dedented line starting with `__version__` the version is `1.0.0`; otherwise it is the value assigned on the first such line, and reading fails, with the missing-value error and no other, exactly when that line has no `=` |
| `Version.Decorate` | setup.py:59-62 | without `.git` the version is unchanged; a git failure propagates; on a release branch the version is unchanged; otherwise it is the version, `+`, and a prefix of HEAD's id of length min(7, id length) |
| `Version.ReadVersion` | setup.py:51-63 | a failure to parse the version file (a version line without `=`) comes first; without `.git` the version is the file's; with `.git` it is the file's version decorated from `read_git_refs` |
| `Version.OneLineFile` | setup.py:54-56 | a one-line file whose line is a version line yields that line's value |
| `Version.FirstLineOnly` | setup.py:54-56 | a file of a single unindented version line yields that line's value |
| `Version.AssignmentLine` | setup.py:54 | `__version__ =` followed by anything is a version line |
| `Version.AssignedValueSingle` | setup.py:56 | a line with exactly one `=` assigns the stripped text after it |
| `Version.AssignedValueRead` | setup.py:56 | `__version__ =` followed by a value wrapped in quotes, blanks and line endings assigns exactly the value |
| `Version.AssignmentRead` | setup.py:54-56 | a version file of that one line reads back as the value |
| `Version.QuotedVersionRoundTrip` | setup.py:54-56 | `__version__ = "v"` reads back as `v` for every `v` without `=` or surrounding trimmed characters |
| `Version.SingleQuotesKept` | setup.py:56 | single quotes are not trimmed: `__version__ = '0.3.0'` gives `'0.3.0'` with its quotes |
| `Version.AssignmentWithoutValueFails` | setup.py:54-56 | a one-line file whose version line has no `=` fails |
| `Version.KeyWithoutValueFails` | setup.py:56 | the bare line `__version__` fails |
| `Version.VersionFromLinesPrefix` | setup.py:54-56 | lines after a version line cannot change the result |
| `Version.DedentLinesAppend` | setup.py:54 | dedenting works line by line |
| `Version.LaterLinesIgnored` | setup.py:54-56 | text appended after a line-feed-terminated prefix that holds a version line does not change the parsed version |
| `Version.DefaultVersionWithoutKey` | setup.py:52-59 | with no `__version__` line and no `.git` directory the version is exactly `1.0.0` |
| `Version.DevelopmentCheckout` | setup.py:51-63 | in a git checkout not on a release branch, the version is the file's version, `+`, and the first min(7, length) characters of HEAD's id |
| `Version.ReleaseCheckout` | setup.py:51-63 | in a git checkout whose HEAD is the tip of a remote release branch, the version is the file's version, undecorated |
| `Description.StartOffset` | setup.py:69-70 | the excerpt starts at the first `# Introduction`, or at 0 when there is none |
| `Description.LongDescription` | setup.py:68-72 | as written: a contiguous slice from the start offset; it ends just before the first `# Contributing` when that lies at or after the start; it is empty when that lies before the start; and it runs to one short of the end when there is none |
| `Description.IntendedLongDescription` | setup.py:68-72 | as evidently intended: the same, except that it runs to the end of the text when there is no `# Contributing` |
| `Description.NoneBeforeFirst` | setup.py:71-72 | a slice ending at or before the first occurrence of a marker does not contain the marker |
| `Description.MarkersApart` | setup.py:69-71 | the two headings cannot overlap: an `# Contributing` at or after an `# Introduction` begins after its end |
| `Description.ExcerptExcludesEnd` | setup.py:71-72 | the excerpt never contains `# Contributing` |
| `Description.AsWrittenWithEndMarker` | setup.py:71-72 | when `# Contributing` occurs, the excerpt is the intended one |
| `Description.AsWrittenWithoutEndMarker` | setup.py:71-72 | without `# Contributing` in a non-empty text, the excerpt is the intended one minus its last character |
| `Description.HeadingOnlyExcerpt` | setup.py:71-72 | the README `# Introduction` yields the excerpt `# Introductio`, where `# Introduction` was intended |
| `Description.MarkedDocument` | setup.py:69-72 | for a README laid out as preamble, `# Introduction`, body, `# Contributing`, trailer, where no `# Introduction` starts in the preamble and no `# Contributing` starts before the laid-out one (straddling occurrences included), the excerpt is the heading and the body |
| `Description.FirstFromPrefix` | setup.py:69-71 | an occurrence is what `find` reports when the text before its last character holds none |
| `Description.ExcerptBetween` | setup.py:69-72 | when the laid-out headings are the first of their kind, the excerpt runs from the first to the second |
| `Description.HashFreeDocument` | setup.py:69-72 | the same layout with no `#` in preamble or body gives the heading and the body |
| `Description.StartFirstInMarked` | setup.py:69-70 | in a layout whose preamble holds no `#`, the first `# Introduction` is the one right after the preamble |
| `Description.EndFirstInMarked` | setup.py:71 | in a layout whose preamble and body hold no `#`, the first `# Contributing` is the one right after the body |
| `Description.ExampleExcerpt` | setup.py:69-72 | `AAA# IntroductionBBB# ContributingCCC` yields `# IntroductionBBB` |
| `Description.IntendedExcludesEnd` | setup.py:71-72 | the intended excerpt never contains `# Contributing` |
| `Description.IntendedOpensWithHeading` | setup.py:69-72 | unless `# Contributing` comes before it, the intended excerpt opens with the `# Introduction` heading |
| `Description.IntendedIdempotent` | setup.py:69-72 | taking the intended excerpt of an excerpt changes nothing |

## Left out

- The `git log` and `git show-ref` subprocesses and the `.git` directory
  test (setup.py:26-34, 59) are process and filesystem I/O. Their captured
  standard output and the test's outcome are parameters. A failing git
  command is covered through its (empty) output: `git log` then has no
  first line, and `git show-ref` gives no lines to inspect. A missing `git`
  executable (`Popen` raising) is not modelled.
- Reading `_version.py` and `README.md` (setup.py:53, 67-68) is file I/O.
  The file text is a parameter. `readlines` is modelled on the text after
  Python's universal-newline translation, so the file's CR and CRLF line
  ends have already become LF.
- `read_requirements` (setup.py:44-47) is never called. Its filter keeps
  every line, so it holds nothing to state.
- The scikit-build `setup` call, the CMake arguments, the classifiers and
  the metadata literals (setup.py:75-111) are static configuration passed
  to an external build tool.
- The `ImportError` fallback (setup.py:13-18) is environment handling.
- `PyStr.Dedent`: only `textwrap.dedent` of a single line is modelled,
  which is how the script uses it. That is, leading blanks and tabs are
  removed. The rule for a common margin over several lines is not modelled.
- `PyStr.Slice`: the contract says nothing about a negative start, which
  the script never passes (its start is `find`'s result mapped to 0 when
  negative). The body applies Python's rule to it anyway.
- The text of exception messages is not modelled. An `Error` says only
  which failure happened.

## Findings

| source | as written | input that shows it | evidently intended | confidence | as-written member | corrected member |
|---|---|---|---|---|---|---|
| setup.py:71-72 | the end offset is `find('# Contributing')`, which is -1 when the heading is missing, and `[start_pos:-1]` then drops the last character of the README | a README consisting of `# Introduction` alone gives `# Introductio` (`Description.HeadingOnlyExcerpt`; in general `Description.AsWrittenWithoutEndMarker`) | without `# Contributing` the excerpt runs to the end of the README | not executed | `Description.LongDescription` | `Description.IntendedLongDescription` |
