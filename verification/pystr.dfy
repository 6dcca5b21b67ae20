/** The Python `str` operations that setup.py's version and description
    logic is built from, over `string` (a `seq<char>`). Each follows
    CPython's behaviour for the argument shapes the script uses: a
    one-character separator for `split`, a character set for `strip`, a
    single line for `textwrap.dedent`. */
module PyStr {

  function Min(a: int, b: int): (m: int) {
    if a <= b then a else b
  }

  /** Every character of `t` is in `cs`. */
  predicate AllIn(t: string, cs: set<char>) {
    forall k :: 0 <= k < |t| ==> t[k] in cs
  }

  /** Every character of `s` from offset `lo` up to `hi` is in `cs`. */
  predicate AllInRange(s: string, lo: int, hi: int, cs: set<char>) {
    forall k :: lo <= k < hi && 0 <= k < |s| ==> s[k] in cs
  }

  /** `s.startswith(p)` */
  predicate StartsWith(s: string, p: string) {
    |p| <= |s| && s[..|p|] == p
  }

  /** `sub` occurs in `s` starting at offset `i`. */
  predicate OccursAt(s: string, sub: string, i: int) {
    0 <= i && i + |sub| <= |s| && s[i..i + |sub|] == sub
  }

  /** `sub in s` */
  predicate Contains(s: string, sub: string) {
    exists i :: 0 <= i <= |s| - |sub| && OccursAt(s, sub, i)
  }

  /** `i` is the lowest offset at which `sub` occurs in `s`. */
  predicate FirstOccurrence(s: string, sub: string, i: int) {
    OccursAt(s, sub, i) && forall j :: 0 <= j < i ==> !OccursAt(s, sub, j)
  }

  // ---------------------------------------------------------------------
  // find

  /** The search behind `find`, starting at offset `k`. */
  function FindFrom(s: string, sub: string, k: nat): (r: int)
    ensures r == -1 || (k <= r && OccursAt(s, sub, r))
    ensures forall j :: k <= j && (r == -1 || j < r) ==> !OccursAt(s, sub, j)
    decreases |s| - k
  {
    if |s| < k + |sub| then -1
    else if s[k..k + |sub|] == sub then k
    else FindFrom(s, sub, k + 1)
  }

  /** `s.find(sub)`: the lowest offset of `sub` in `s`, or -1 when absent. */
  function Find(s: string, sub: string): (r: int)
    ensures r == -1 <==> !Contains(s, sub)
    ensures r != -1 ==> FirstOccurrence(s, sub, r)
  {
    FindFrom(s, sub, 0)
  }

  /** An occurrence inside a slice is an occurrence in the whole string,
      shifted by the slice's start. */
  lemma OccursInSlice(s: string, a: int, b: int, sub: string, p: int)
    requires 0 <= a <= b <= |s|
    requires OccursAt(s[a..b], sub, p)
    ensures OccursAt(s, sub, a + p) && a + p + |sub| <= b
  {
    var t := s[a..b];
    assert forall k :: p <= k < p + |sub| ==> t[k] == s[a + k];
    assert s[a + p..a + p + |sub|] == t[p..p + |sub|];
  }

  /** One mismatching character rules out an occurrence. */
  lemma Mismatch(s: string, sub: string, i: int, k: int)
    requires 0 <= i && 0 <= k < |sub| && i + k < |s|
    requires s[i + k] != sub[k]
    ensures !OccursAt(s, sub, i)
  {
    if i + |sub| <= |s| {
      assert s[i..i + |sub|][k] == s[i + k];
    }
  }

  /** `find` returns the first occurrence whenever there is one. */
  lemma FindFirst(s: string, sub: string, i: int)
    requires FirstOccurrence(s, sub, i)
    ensures Find(s, sub) == i
  {
    assert Contains(s, sub);
  }

  // ---------------------------------------------------------------------
  // slicing

  /** Python's treatment of one slice bound `i` against length `n`: a
      negative bound counts back from the end, then the bound is clamped
      into [0, n]. */
  function SliceBound(i: int, n: nat): (b: nat)
    ensures b <= n
  {
    if i < 0 then (if i + n < 0 then 0 else i + n)
    else if i > n then n
    else i
  }

  /** `s[i:j]` with Python's slice semantics (step 1): an empty result
      whenever the normalised start is not below the normalised end. */
  function Slice(s: string, i: int, j: int): (r: string)
    ensures |r| <= |s|
    ensures 0 <= i <= j ==> r == s[Min(i, |s|)..Min(j, |s|)]
    ensures 0 <= i <= |s| + j && j < 0 ==> r == s[i..|s| + j]
    ensures 0 <= |s| + j < i ==> r == []
    ensures 0 <= j <= i ==> r == []
    ensures 0 <= i && |s| + j < 0 ==> r == []
  {
    var lo := SliceBound(i, |s|);
    var hi := SliceBound(j, |s|);
    if lo < hi then s[lo..hi] else []
  }

  // ---------------------------------------------------------------------
  // split with a one-character separator

  /** `sep.join(fields)` for a one-character separator. */
  function Join(fields: seq<string>, sep: char): (s: string)
  {
    if fields == [] then []
    else if |fields| == 1 then fields[0]
    else fields[0] + [sep] + Join(fields[1..], sep)
  }

  /** How many times `c` occurs in `s`. */
  function Count(s: string, c: char): (n: nat)
    ensures n == 0 <==> c !in s
    ensures n <= |s|
  {
    if s == [] then 0 else (if s[0] == c then 1 else 0) + Count(s[1..], c)
  }

  /** `s.split(sep)` with an explicit one-character separator: every
      occurrence of `sep` ends a field, so `k` separators give `k + 1`
      fields, empty ones included. */
  function Split(s: string, sep: char): (fields: seq<string>)
    ensures |fields| == Count(s, sep) + 1
    ensures forall k :: 0 <= k < |fields| ==> sep !in fields[k]
    decreases |s|
  {
    if s == [] then [[]]
    else
      var rest := Split(s[1..], sep);
      if s[0] == sep then [[]] + rest
      else [[s[0]] + rest[0]] + rest[1..]
  }

  /** Joining the fields of a split with the separator gives back the
      text: nothing but the separators is lost. */
  lemma {:induction false} JoinSplit(s: string, sep: char)
    ensures Join(Split(s, sep), sep) == s
    decreases |s|
  {
    if s != [] {
      JoinSplit(s[1..], sep);
      if s[0] == sep {
        JoinSplitAtSep(s, sep);
      } else {
        JoinSplitInField(s, sep);
      }
    }
  }

  /** The inductive step of `JoinSplit` when the text opens with the
      separator: an empty first field, then the rest's fields. */
  lemma JoinSplitAtSep(s: string, sep: char)
    requires s != [] && s[0] == sep
    requires Join(Split(s[1..], sep), sep) == s[1..]
    ensures Join(Split(s, sep), sep) == s
  {
    var rest := Split(s[1..], sep);
    assert Split(s, sep) == [[]] + rest;
    JoinEmptyFirst(rest, sep);
    assert s == [sep] + s[1..];
  }

  /** An empty first field contributes only its separator. */
  lemma JoinEmptyFirst(fields: seq<string>, sep: char)
    requires fields != []
    ensures Join([[]] + fields, sep) == [sep] + Join(fields, sep)
  {
    assert ([[]] + fields)[1..] == fields;
  }

  /** The inductive step of `JoinSplit` when the text opens with another
      character: it joins the rest's first field. */
  lemma JoinSplitInField(s: string, sep: char)
    requires s != [] && s[0] != sep
    requires Join(Split(s[1..], sep), sep) == s[1..]
    ensures Join(Split(s, sep), sep) == s
  {
    var rest := Split(s[1..], sep);
    assert Split(s, sep) == [[s[0]] + rest[0]] + rest[1..];
    JoinGrowFirst(s[0], rest, sep);
    assert s == [s[0]] + s[1..];
  }

  /** Putting a character in front of the first field puts it in front
      of the joined text. */
  lemma JoinGrowFirst(c: char, fields: seq<string>, sep: char)
    requires fields != []
    ensures Join([[c] + fields[0]] + fields[1..], sep) == [c] + Join(fields, sep)
  {
    var grown := [[c] + fields[0]] + fields[1..];
    if |fields| > 1 {
      assert grown[1..] == fields[1..];
      assert Join(grown, sep) == ([c] + fields[0]) + [sep] + Join(fields[1..], sep);
      assert [c] + Join(fields, sep) == [c] + (fields[0] + [sep] + Join(fields[1..], sep));
    }
  }

  /** Offset of the first `c` in `s`, or |s| when there is none. */
  function IndexOf(s: string, c: char): (r: nat)
    ensures r <= |s|
    ensures forall k :: 0 <= k < r ==> s[k] != c
    ensures r < |s| ==> s[r] == c
  {
    if s == [] || s[0] == c then 0 else 1 + IndexOf(s[1..], c)
  }

  /** The first field of a split runs up to the first separator, and the
      remaining fields are the split of what follows it. */
  lemma {:induction false} SplitHead(s: string, sep: char)
    ensures Split(s, sep)[0] == s[..IndexOf(s, sep)]
    ensures IndexOf(s, sep) < |s| ==> Split(s, sep)[1..] == Split(s[IndexOf(s, sep) + 1..], sep)
    decreases |s|
  {
    if s == [] {
      assert Split(s, sep) == [[]];
    } else if s[0] == sep {
      assert Split(s, sep) == [[]] + Split(s[1..], sep);
    } else {
      SplitHead(s[1..], sep);
      SplitHeadCons(s, sep);
    }
  }

  /** The inductive step of `SplitHead` for a first character other than
      the separator: the first field grows by that character and the
      fields after it are those of the rest. */
  lemma SplitHeadCons(s: string, sep: char)
    requires s != [] && s[0] != sep
    requires Split(s[1..], sep)[0] == s[1..][..IndexOf(s[1..], sep)]
    requires IndexOf(s[1..], sep) < |s[1..]| ==>
               Split(s[1..], sep)[1..] == Split(s[1..][IndexOf(s[1..], sep) + 1..], sep)
    ensures Split(s, sep)[0] == s[..IndexOf(s, sep)]
    ensures IndexOf(s, sep) < |s| ==> Split(s, sep)[1..] == Split(s[IndexOf(s, sep) + 1..], sep)
  {
    SplitCons(s, sep);
    TailSlices(s, IndexOf(s[1..], sep));
  }

  /** Slices of `s[1..]` as slices of `s`. */
  lemma TailSlices(s: string, j: nat)
    requires j < |s|
    ensures [s[0]] + s[1..][..j] == s[..1 + j]
    ensures s[1..][j..] == s[1 + j..]
  {
  }

  /** A first character other than the separator joins the first field. */
  lemma SplitCons(s: string, sep: char)
    requires s != [] && s[0] != sep
    ensures Split(s, sep)[0] == [s[0]] + Split(s[1..], sep)[0]
    ensures Split(s, sep)[1..] == Split(s[1..], sep)[1..]
    ensures IndexOf(s, sep) == 1 + IndexOf(s[1..], sep)
  {
  }

  /** Joining separator-free fields and splitting again gives the fields
      back: `split` is the inverse of `join`. */
  lemma {:induction false} SplitJoin(fields: seq<string>, sep: char)
    requires fields != []
    requires forall k :: 0 <= k < |fields| ==> sep !in fields[k]
    ensures Split(Join(fields, sep), sep) == fields
    decreases |fields|
  {
    if |fields| == 1 {
      SplitSingle(fields[0], sep);
    } else {
      SplitJoinStep(fields[0], Join(fields[1..], sep), sep);
      SplitJoin(fields[1..], sep);
      assert fields == [fields[0]] + fields[1..];
    }
  }

  /** A text without the separator splits into itself alone. */
  lemma SplitSingle(t: string, sep: char)
    requires sep !in t
    ensures Split(t, sep) == [t]
  {
    IndexOfAbsent(t, sep);
    SplitHead(t, sep);
    assert Count(t, sep) == 0;
    assert t[..|t|] == t;
  }

  /** A separator-free first field followed by the separator splits off
      as the first field. */
  lemma SplitJoinStep(f0: string, tail: string, sep: char)
    requires sep !in f0
    ensures Split(f0 + [sep] + tail, sep) == [f0] + Split(tail, sep)
  {
    var s := f0 + [sep] + tail;
    assert s == f0 + ([sep] + tail);
    IndexOfAfterFree(f0, [sep] + tail, sep);
    assert IndexOf([sep] + tail, sep) == 0;
    SplitHead(s, sep);
    AppendSlices(f0, [sep] + tail, |f0|);
    assert ([sep] + tail)[1..] == tail;
    AppendSlices(f0 + [sep], tail, |f0| + 1);
    assert (f0 + [sep])[..|f0|] == f0;
    assert Split(s, sep) == [Split(s, sep)[0]] + Split(s, sep)[1..];
  }

  /** A string without `c` has no `c` to find. */
  lemma IndexOfAbsent(s: string, c: char)
    requires c !in s
    ensures IndexOf(s, c) == |s|
  {
  }

  /** Searching past a separator-free prefix. */
  lemma {:induction false} IndexOfAfterFree(p: string, t: string, c: char)
    requires c !in p
    ensures IndexOf(p + t, c) == |p| + IndexOf(t, c)
    decreases |p|
  {
    if p != [] {
      assert (p + t)[0] == p[0] != c;
      assert (p + t)[1..] == p[1..] + t;
      assert c !in p[1..];
      IndexOfAfterFree(p[1..], t, c);
    } else {
      assert p + t == t;
    }
  }

  // ---------------------------------------------------------------------
  // strip

  /** Offset of the first character at or after `k` that is not in
      `cs`, or |s| when there is none. */
  function SkipIn(s: string, cs: set<char>, k: nat): (i: nat)
    requires k <= |s|
    ensures k <= i <= |s|
    ensures AllInRange(s, k, i, cs)
    ensures i == |s| || s[i] !in cs
    decreases |s| - k
  {
    if k == |s| || s[k] !in cs then k else SkipIn(s, cs, k + 1)
  }

  /** Going back from `j`, the offset just past the last character not
      in `cs`, or `lo` when every character from `lo` up to `j` is in `cs`. */
  function SkipInBack(s: string, cs: set<char>, lo: nat, j: nat): (i: nat)
    requires lo <= j <= |s|
    ensures lo <= i <= j
    ensures AllInRange(s, i, j, cs)
    ensures i == lo || s[i - 1] !in cs
    decreases j
  {
    if j == lo || s[j - 1] !in cs then j else SkipInBack(s, cs, lo, j - 1)
  }

  /** `SkipIn` from the start stops exactly at the first kept character. */
  lemma SkipInExact(s: string, cs: set<char>, n: nat)
    requires n <= |s|
    requires AllInRange(s, 0, n, cs)
    requires n == |s| || s[n] !in cs
    ensures SkipIn(s, cs, 0) == n
  {
  }

  /** `SkipInBack` from the end stops exactly after the last kept
      character. */
  lemma SkipInBackExact(s: string, cs: set<char>, lo: nat, n: nat)
    requires lo <= n <= |s|
    requires AllInRange(s, n, |s|, cs)
    requires n == lo || s[n - 1] !in cs
    ensures SkipInBack(s, cs, lo, |s|) == n
  {
  }

  /** `r` is the middle of `s` from offset `a`, with everything before
      and after it in `cs`. */
  predicate MiddleAt(s: string, r: string, cs: set<char>, a: int) {
    && 0 <= a <= |s| - |r|
    && r == s[a..a + |r|]
    && AllInRange(s, 0, a, cs)
    && AllInRange(s, a + |r|, |s|, cs)
  }

  /** `s.strip(chars)`: removes every leading and every trailing
      character that is in `cs`, keeping the contiguous middle. */
  function Strip(s: string, cs: set<char>): (r: string)
    ensures r == [] || (r[0] !in cs && r[|r| - 1] !in cs)
    ensures exists a :: MiddleAt(s, r, cs, a)
  {
    var a := SkipIn(s, cs, 0);
    var b := SkipInBack(s, cs, a, |s|);
    assert MiddleAt(s, s[a..b], cs, a);
    s[a..b]
  }

  /** `strip` is determined by its result: whatever surrounds a middle
      whose ends are kept is removed, and nothing else is. */
  lemma StripExact(p: string, m: string, q: string, cs: set<char>)
    requires AllIn(p, cs) && AllIn(q, cs)
    requires m == [] || (m[0] !in cs && m[|m| - 1] !in cs)
    ensures Strip(p + m + q, cs) == m
  {
    var s := p + m + q;
    forall k | 0 <= k < |p|
      ensures s[k] in cs
    {
      assert s[k] == p[k];
    }
    forall k | |p| + |m| <= k < |s|
      ensures s[k] in cs
    {
      assert s[k] == q[k - |p| - |m|];
    }
    if m == [] {
      SkipInExact(s, cs, |s|);
    } else {
      assert s[|p|] == m[0];
      assert s[|p| + |m| - 1] == m[|m| - 1];
      SkipInExact(s, cs, |p|);
      SkipInBackExact(s, cs, |p|, |p| + |m|);
      assert s[|p|..|p| + |m|] == m;
    }
  }

  /** A text none of whose characters is stripped comes back unchanged. */
  lemma StripKeeps(t: string, cs: set<char>)
    requires forall k :: 0 <= k < |t| ==> t[k] !in cs
    ensures Strip(t, cs) == t
  {
    assert [] + t + [] == t;
    StripExact([], t, [], cs);
  }

  // ---------------------------------------------------------------------
  // textwrap.dedent on one line

  const Indent: set<char> := {' ', '\t'}

  /** `textwrap.dedent` applied to a text of one line: the common margin
      is that line's own leading run of spaces and tabs, which is removed
      (a blank line loses its blanks the same way). */
  function Dedent(line: string): (r: string)
    ensures |r| <= |line| && r == line[|line| - |r|..]
    ensures AllInRange(line, 0, |line| - |r|, Indent)
    ensures r == [] || r[0] !in Indent
  {
    line[SkipIn(line, Indent, 0)..]
  }

  /** A line that does not start with a space or tab is its own dedent. */
  lemma DedentUnindented(line: string)
    requires line == [] || line[0] !in Indent
    ensures Dedent(line) == line
  {
    SkipInExact(line, Indent, 0);
  }

  // ---------------------------------------------------------------------
  // splitlines

  /** The line boundaries recognised by `str.splitlines`. */
  const LineBreaks: set<char> :=
    {'\n', '\r', '\U{0B}', '\U{0C}', '\U{1C}', '\U{1D}', '\U{1E}', '\U{85}', '\U{2028}', '\U{2029}'}

  predicate IsLineBreak(c: char) {
    c in LineBreaks
  }

  predicate NoLineBreak(t: string) {
    forall k :: 0 <= k < |t| ==> !IsLineBreak(t[k])
  }

  /** Offset of the first line boundary in `s` at or after `k`, or |s|. */
  function BreakFrom(s: string, k: nat): (r: nat)
    requires k <= |s|
    ensures k <= r <= |s|
    ensures forall j :: k <= j < r ==> !IsLineBreak(s[j])
    ensures r < |s| ==> IsLineBreak(s[r])
    decreases |s| - k
  {
    if k == |s| || IsLineBreak(s[k]) then k else BreakFrom(s, k + 1)
  }

  /** `s.splitlines()`: lines without their boundaries; `\r\n` is one
      boundary, and a boundary at the very end does not open a further,
      empty line. */
  function SplitLines(s: string): (lines: seq<string>)
    ensures lines == [] <==> s == []
    ensures forall k :: 0 <= k < |lines| ==> NoLineBreak(lines[k])
    ensures lines != [] ==> StartsWith(s, lines[0])
                            && (|lines[0]| == |s| || IsLineBreak(s[|lines[0]|]))
    ensures s != [] && NoLineBreak(s) ==> lines == [s]
    decreases |s|
  {
    if s == [] then []
    else
      var i := BreakFrom(s, 0);
      if i == |s| then [s]
      else
        var next := if s[i] == '\r' && i + 1 < |s| && s[i + 1] == '\n' then i + 2 else i + 1;
        [s[..i]] + SplitLines(s[next..])
  }

  /** `BreakFrom` stops exactly at the first boundary at or after `k`. */
  lemma {:induction false} BreakFromExact(s: string, k: nat, n: nat)
    requires k <= n <= |s|
    requires forall j :: k <= j < n ==> !IsLineBreak(s[j])
    requires n == |s| || IsLineBreak(s[n])
    ensures BreakFrom(s, k) == n
    decreases n - k
  {
    if k < n {
      BreakFromExact(s, k + 1, n);
    }
  }

  /** A boundary-free line ended by any one-character boundary splits
      off as the first line, and the rest is split on its own. A `\r`
      counts alone only when no `\n` follows it. */
  lemma SplitLinesBreak(l: string, b: char, rest: string)
    requires NoLineBreak(l) && IsLineBreak(b)
    requires b == '\r' ==> rest == [] || rest[0] != '\n'
    ensures SplitLines(l + [b] + rest) == [l] + SplitLines(rest)
  {
    var s := l + [b] + rest;
    LineThenBreak(l, [b], rest);
    assert s[|l|] == s[|l|..|l| + 1][0] == b;
    assert b == '\r' && |l| + 1 < |s| ==> s[|l| + 1] == rest[0];
    BreakFromExact(s, 0, |l|);
  }

  /** A boundary-free line ended by `\r\n` splits off as the first line:
      the pair is one boundary. */
  lemma SplitLinesCrLf(l: string, rest: string)
    requires NoLineBreak(l)
    ensures SplitLines(l + "\r\n" + rest) == [l] + SplitLines(rest)
  {
    var s := l + "\r\n" + rest;
    LineThenBreak(l, "\r\n", rest);
    assert s[|l|] == s[|l|..|l| + 2][0] == '\r';
    assert s[|l| + 1] == s[|l|..|l| + 2][1] == '\n';
    BreakFromExact(s, 0, |l|);
  }

  /** The layout of a line followed by its boundary. */
  lemma LineThenBreak(l: string, b: string, rest: string)
    requires b != []
    ensures var s := l + b + rest;
            && (forall j :: 0 <= j < |l| ==> s[j] == l[j])
            && s[..|l|] == l
            && s[|l|..|l| + |b|] == b
            && s[|l| + |b|..] == rest
  {
  }

  /** Removing indentation cannot introduce a line boundary. */
  lemma DedentUnbroken(line: string)
    requires NoLineBreak(line)
    ensures NoLineBreak(Dedent(line))
  {
    var d := Dedent(line);
    var n := |line| - |d|;
    forall k | 0 <= k < |d|
      ensures !IsLineBreak(d[k])
    {
      assert d[k] == line[n + k];
    }
  }

  /** Lines written out one per row, each ended by `\n`. */
  function JoinLines(lines: seq<string>): (text: string) {
    if lines == [] then [] else lines[0] + "\n" + JoinLines(lines[1..])
  }

  /** Writing boundary-free lines with `\n` endings and splitting the
      text again gives the same lines. */
  lemma {:induction false} SplitLinesJoinLines(lines: seq<string>)
    requires forall k :: 0 <= k < |lines| ==> NoLineBreak(lines[k])
    ensures SplitLines(JoinLines(lines)) == lines
    decreases |lines|
  {
    if lines != [] {
      var l0 := lines[0];
      var rest := JoinLines(lines[1..]);
      var s := JoinLines(lines);
      assert s == l0 + "\n" + rest;
      assert s[|l0|] == '\n';
      var i := BreakFrom(s, 0);
      assert i == |l0|;
      assert s[..i] == l0;
      assert s[i + 1..] == rest;
      assert NoLineBreak(l0);
      SplitLinesJoinLines(lines[1..]);
    }
  }

  // ---------------------------------------------------------------------
  // readlines

  /** The lines concatenated back together. */
  function Concat(lines: seq<string>): (text: string) {
    if lines == [] then [] else lines[0] + Concat(lines[1..])
  }

  /** `f.readlines()` over text already read in universal-newline mode:
      each line keeps its ending `\n`; only the last may lack one. */
  function ReadLines(text: string): (lines: seq<string>)
    ensures Concat(lines) == text
    decreases |text|
  {
    if text == [] then []
    else
      var i := IndexOf(text, '\n');
      if i == |text| then [text]
      else
        var rest := ReadLines(text[i + 1..]);
        assert text == text[..i + 1] + text[i + 1..];
        [text[..i + 1]] + rest
  }

  /** A line as `readlines` returns it: not empty, and without a line
      feed before its last character. */
  predicate ReadLineShape(line: string) {
    line != [] && forall j :: 0 <= j < |line| - 1 ==> line[j] != '\n'
  }

  /** Every line `readlines` returns is a line, and every line but the
      last ends in a line feed. */
  lemma {:induction false} ReadLinesShape(text: string)
    ensures var lines := ReadLines(text);
            forall k :: 0 <= k < |lines| ==>
              ReadLineShape(lines[k]) && (k < |lines| - 1 ==> lines[k][|lines[k]| - 1] == '\n')
    decreases |text|
  {
    if text != [] {
      var i := IndexOf(text, '\n');
      if i < |text| {
        var first := text[..i + 1];
        ReadLinesCons(text, i);
        ReadLinesShape(text[i + 1..]);
        assert ReadLineShape(first) by {
          forall j | 0 <= j < |first| - 1
            ensures first[j] != '\n'
          {
            assert first[j] == text[j];
          }
        }
      }
    }
  }

  /** A line without a line feed, ended by one, reads as that one line. */
  lemma ReadOneLine(line: string)
    requires '\n' !in line
    ensures ReadLines(line + "\n") == [line + "\n"]
  {
    var t := line + "\n";
    IndexOfAfterFree(line, "\n", '\n');
    assert t[..|line| + 1] == t;
    assert t[|line| + 1..] == [];
  }

  /** Appending to a text keeps its prefixes. */
  lemma StartsWithAppend(s: string, p: string, x: string)
    requires StartsWith(s, p)
    ensures StartsWith(s + x, p)
  {
    assert (s + x)[..|p|] == s[..|p|];
  }

  /** Reading a text whose first part ends a line reads the two parts'
      lines one after the other. */
  lemma {:induction false} ReadLinesAppend(a: string, b: string)
    requires a == [] || a[|a| - 1] == '\n'
    ensures ReadLines(a + b) == ReadLines(a) + ReadLines(b)
    decreases |a|
  {
    if a != [] {
      var i := IndexOf(a, '\n');
      assert i < |a|;
      ReadLinesAppendStep(a, b, i);
      ReadLinesCons(a, i);
      ReadLinesAppend(a[i + 1..], b);
      assert [a[..i + 1]] + (ReadLines(a[i + 1..]) + ReadLines(b))
          == ([a[..i + 1]] + ReadLines(a[i + 1..])) + ReadLines(b);
    } else {
      assert a + b == b;
    }
  }

  /** Text behind the first line feed does not change the first line. */
  lemma ReadLinesAppendStep(a: string, b: string, i: nat)
    requires i == IndexOf(a, '\n') && i < |a|
    ensures ReadLines(a + b) == [a[..i + 1]] + ReadLines(a[i + 1..] + b)
  {
    IndexOfPrefix(a, b, '\n');
    ReadLinesCons(a + b, i);
    AppendSlices(a, b, i + 1);
  }

  /** Cutting `a + b` inside `a`. */
  lemma AppendSlices(a: string, b: string, n: nat)
    requires n <= |a|
    ensures (a + b)[..n] == a[..n]
    ensures (a + b)[n..] == a[n..] + b
  {
  }

  /** One step of `readlines`: the first line runs up to and including
      the first line feed. */
  lemma ReadLinesCons(t: string, i: nat)
    requires i == IndexOf(t, '\n') && i < |t|
    ensures ReadLines(t) == [t[..i + 1]] + ReadLines(t[i + 1..])
  {
  }

  /** Searching a text whose first part already holds the character. */
  lemma {:induction false} IndexOfPrefix(a: string, b: string, c: char)
    requires IndexOf(a, c) < |a|
    ensures IndexOf(a + b, c) == IndexOf(a, c)
    decreases |a|
  {
    if a[0] != c {
      assert IndexOf(a[1..], c) < |a[1..]|;
      assert (a + b)[1..] == a[1..] + b;
      IndexOfPrefix(a[1..], b, c);
    }
  }
}
