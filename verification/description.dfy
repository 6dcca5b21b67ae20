/** The long description of setup.py (lines 66-72): the excerpt of the
    project README from its `# Introduction` heading up to its
    `# Contributing` heading. The file's text is a parameter. */
module Description {
  import opened PyStr

  const StartMarker: string := "# Introduction"
  const EndMarker: string := "# Contributing"

  /** Lines 69-70: the first `# Introduction`, or the text's start when
      there is none. */
  function StartOffset(doc: string): (start: nat)
    ensures start <= |doc|
    ensures Contains(doc, StartMarker) ==> FirstOccurrence(doc, StartMarker, start)
    ensures !Contains(doc, StartMarker) ==> start == 0
  {
    var p := Find(doc, StartMarker);
    if p < 0 then 0 else p
  }

  /** Lines 71-72 as written: `doc[start:end]` with `end` the result of
      `find`, which is -1 when there is no `# Contributing`. */
  function LongDescription(doc: string): (r: string)
    ensures StartOffset(doc) + |r| <= |doc| && r == doc[StartOffset(doc)..StartOffset(doc) + |r|]
    ensures forall e :: FirstOccurrence(doc, EndMarker, e) && StartOffset(doc) <= e ==> r == doc[StartOffset(doc)..e]
    ensures forall e :: FirstOccurrence(doc, EndMarker, e) && e < StartOffset(doc) ==> r == []
    ensures !Contains(doc, EndMarker) && doc != [] ==> r == doc[StartOffset(doc)..|doc| - 1]
  {
    Slice(doc, StartOffset(doc), Find(doc, EndMarker))
  }

  /** The excerpt as evidently intended: up to the first `# Contributing`,
      or to the end of the text when there is none. */
  function IntendedLongDescription(doc: string): (r: string)
    ensures StartOffset(doc) + |r| <= |doc| && r == doc[StartOffset(doc)..StartOffset(doc) + |r|]
    ensures forall e :: FirstOccurrence(doc, EndMarker, e) && StartOffset(doc) <= e ==> r == doc[StartOffset(doc)..e]
    ensures forall e :: FirstOccurrence(doc, EndMarker, e) && e < StartOffset(doc) ==> r == []
    ensures !Contains(doc, EndMarker) ==> r == doc[StartOffset(doc)..]
  {
    var e := Find(doc, EndMarker);
    Slice(doc, StartOffset(doc), if e < 0 then |doc| else e)
  }

  // ---------------------------------------------------------------------
  // Shared facts about the markers

  /** A slice of `doc` that ends at or before the first occurrence of
      `sub` (or is empty) does not contain `sub`. */
  lemma NoneBeforeFirst(doc: string, sub: string, s: nat, r: string)
    requires s + |r| <= |doc| && r == doc[s..s + |r|]
    requires forall e :: FirstOccurrence(doc, sub, e) ==> s + |r| <= e || r == []
    requires sub != []
    ensures !Contains(r, sub)
  {
    forall p | 0 <= p <= |r| - |sub|
      ensures !OccursAt(r, sub, p)
    {
      if OccursAt(r, sub, p) {
        OccursInSlice(doc, s, s + |r|, sub, p);
        var e := Find(doc, sub);
      }
    }
  }

  /** The two headings cannot overlap: an `# Contributing` at or after an
      `# Introduction` starts after the whole of it. */
  lemma MarkersApart(doc: string, s: int, e: int)
    requires OccursAt(doc, StartMarker, s) && OccursAt(doc, EndMarker, e)
    requires s <= e
    ensures s + |StartMarker| <= e
  {
    assert doc[e] == EndMarker[0] == '#';
    assert doc[s + 2] == StartMarker[2] != EndMarker[2] == doc[e + 2];
    forall k | s < k < s + |StartMarker|
      ensures doc[k] != '#'
    {
      assert doc[k] == StartMarker[k - s];
    }
  }

  // ---------------------------------------------------------------------
  // The excerpt as written

  /** The excerpt never contains `# Contributing`. */
  lemma ExcerptExcludesEnd(doc: string)
    ensures !Contains(LongDescription(doc), EndMarker)
  {
    NoneBeforeFirst(doc, EndMarker, StartOffset(doc), LongDescription(doc));
  }

  /** When `# Contributing` occurs the script does what was intended. */
  lemma AsWrittenWithEndMarker(doc: string)
    requires Contains(doc, EndMarker)
    ensures LongDescription(doc) == IntendedLongDescription(doc)
  {
    FindFirst(doc, EndMarker, Find(doc, EndMarker));
  }

  /** Without `# Contributing` the excerpt loses the last character of
      the text: `find` returns -1 and the slice stops one short. */
  lemma AsWrittenWithoutEndMarker(doc: string)
    requires !Contains(doc, EndMarker) && doc != []
    ensures var intended := IntendedLongDescription(doc);
            intended != [] && LongDescription(doc) == intended[..|intended| - 1]
  {
  }

  /** A README that is only its introduction heading loses the heading's
      last letter. */
  lemma HeadingOnlyExcerpt()
    ensures LongDescription(StartMarker) == "# Introductio"
    ensures IntendedLongDescription(StartMarker) == StartMarker
  {
    assert OccursAt(StartMarker, StartMarker, 0);
    assert FirstOccurrence(StartMarker, StartMarker, 0);
    assert !Contains(StartMarker, EndMarker) by {
      assert !OccursAt(StartMarker, EndMarker, 0);
    }
  }

  /** A README laid out as preamble, `# Introduction` heading, body,
      `# Contributing` heading, trailer, where those two headings are the
      first of their kind: the excerpt is the introduction heading and the
      body. The body may hold other headings, and even `# Introduction`
      again. Occurrences that straddle a boundary count, which is why the
      headings' last characters are left out of the searched prefixes. */
  lemma MarkedDocument(pre: string, body: string, post: string)
    requires !Contains(pre + StartMarker[..|StartMarker| - 1], StartMarker)
    requires !Contains(pre + StartMarker + body + EndMarker[..|EndMarker| - 1], EndMarker)
    ensures LongDescription(pre + StartMarker + body + EndMarker + post) == StartMarker + body
  {
    var doc := pre + StartMarker + body + EndMarker + post;
    var s := |pre|;
    var e := |pre| + |StartMarker| + |body|;
    assert doc[s..s + |StartMarker|] == StartMarker;
    assert doc[..s + |StartMarker| - 1] == pre + StartMarker[..|StartMarker| - 1];
    FirstFromPrefix(doc, StartMarker, s);
    assert doc[e..e + |EndMarker|] == EndMarker;
    assert doc[..e + |EndMarker| - 1] == pre + StartMarker + body + EndMarker[..|EndMarker| - 1];
    FirstFromPrefix(doc, EndMarker, e);
    ExcerptBetween(pre, body, post);
  }

  /** An occurrence is the first one when the text before its last
      character holds none. */
  lemma FirstFromPrefix(doc: string, sub: string, i: nat)
    requires sub != [] && OccursAt(doc, sub, i)
    requires !Contains(doc[..i + |sub| - 1], sub)
    ensures FirstOccurrence(doc, sub, i)
  {
    var n := i + |sub| - 1;
    forall j | 0 <= j < i
      ensures !OccursAt(doc, sub, j)
    {
      if OccursAt(doc, sub, j) {
        assert doc[..n][j..j + |sub|] == doc[j..j + |sub|];
        assert OccursAt(doc[..n], sub, j);
      }
    }
  }

  /** With both headings the first of their kind, the excerpt is what
      lies from the first to the second. */
  lemma ExcerptBetween(pre: string, body: string, post: string)
    requires FirstOccurrence(pre + StartMarker + body + EndMarker + post, StartMarker, |pre|)
    requires FirstOccurrence(pre + StartMarker + body + EndMarker + post, EndMarker,
                             |pre| + |StartMarker| + |body|)
    ensures LongDescription(pre + StartMarker + body + EndMarker + post) == StartMarker + body
  {
    var doc := pre + StartMarker + body + EndMarker + post;
    assert doc[|pre|..|pre| + |StartMarker| + |body|] == StartMarker + body;
  }

  /** The same layout where neither preamble nor body holds a `#`. */
  lemma HashFreeDocument(pre: string, body: string, post: string)
    requires '#' !in pre && '#' !in body
    ensures LongDescription(pre + StartMarker + body + EndMarker + post) == StartMarker + body
  {
    StartFirstInMarked(pre, body, post);
    EndFirstInMarked(pre, body, post);
    ExcerptBetween(pre, body, post);
  }

  /** In such a README the first `# Introduction` is the one after the
      preamble. */
  lemma StartFirstInMarked(pre: string, body: string, post: string)
    requires '#' !in pre
    ensures FirstOccurrence(pre + StartMarker + body + EndMarker + post, StartMarker, |pre|)
  {
    var doc := pre + StartMarker + body + EndMarker + post;
    var s := |pre|;
    assert doc[s..s + |StartMarker|] == StartMarker;
    forall j | 0 <= j < s
      ensures !OccursAt(doc, StartMarker, j)
    {
      assert doc[j] == pre[j];
      Mismatch(doc, StartMarker, j, 0);
    }
  }

  /** In such a README the first `# Contributing` is the one after the
      body. */
  lemma EndFirstInMarked(pre: string, body: string, post: string)
    requires '#' !in pre && '#' !in body
    ensures FirstOccurrence(pre + StartMarker + body + EndMarker + post, EndMarker,
                            |pre| + |StartMarker| + |body|)
  {
    var doc := pre + StartMarker + body + EndMarker + post;
    var s := |pre|;
    var e := |pre| + |StartMarker| + |body|;
    assert doc[e..e + |EndMarker|] == EndMarker;
    forall j | 0 <= j < e
      ensures !OccursAt(doc, EndMarker, j)
    {
      if j < s {
        assert doc[j] == pre[j];
        Mismatch(doc, EndMarker, j, 0);
      } else if j == s {
        assert doc[j + 2] == StartMarker[2];
        Mismatch(doc, EndMarker, j, 2);
      } else if j < s + |StartMarker| {
        assert doc[j] == StartMarker[j - s];
        Mismatch(doc, EndMarker, j, 0);
      } else {
        assert doc[j] == body[j - s - |StartMarker|];
        Mismatch(doc, EndMarker, j, 0);
      }
    }
  }

  /** An example README: preamble `AAA`, body `BBB`, trailer `CCC`. */
  lemma ExampleExcerpt()
    ensures LongDescription("AAA# IntroductionBBB# ContributingCCC") == "# IntroductionBBB"
  {
    ExampleLayout();
    HashFreeDocument("AAA", "BBB", "CCC");
  }

  /** How the example text is laid out. */
  lemma ExampleLayout()
    ensures "AAA# IntroductionBBB# ContributingCCC" == "AAA" + StartMarker + "BBB" + EndMarker + "CCC"
    ensures StartMarker + "BBB" == "# IntroductionBBB"
    ensures '#' !in "AAA" && '#' !in "BBB"
  {
    var opening := "AAA" + StartMarker + "BBB";
    var closing := EndMarker + "CCC";
    assert opening == "AAA# IntroductionBBB";
    assert closing == "# ContributingCCC";
    assert opening + closing == "AAA# IntroductionBBB# ContributingCCC";
  }

  // ---------------------------------------------------------------------
  // The intended excerpt

  /** The intended excerpt never contains `# Contributing`. */
  lemma IntendedExcludesEnd(doc: string)
    ensures !Contains(IntendedLongDescription(doc), EndMarker)
  {
    NoneBeforeFirst(doc, EndMarker, StartOffset(doc), IntendedLongDescription(doc));
  }

  /** Unless `# Contributing` comes first, the intended excerpt opens with
      the `# Introduction` heading. */
  lemma IntendedOpensWithHeading(doc: string)
    requires Contains(doc, StartMarker)
    requires forall e :: FirstOccurrence(doc, EndMarker, e) ==> StartOffset(doc) <= e
    ensures StartsWith(IntendedLongDescription(doc), StartMarker)
  {
    var s := StartOffset(doc);
    var r := IntendedLongDescription(doc);
    if Contains(doc, EndMarker) {
      var e := Find(doc, EndMarker);
      MarkersApart(doc, s, e);
      assert r == doc[s..e];
    }
    assert r[..|StartMarker|] == doc[s..s + |StartMarker|];
  }

  /** Taking the intended excerpt of an excerpt changes nothing. */
  lemma IntendedIdempotent(doc: string)
    ensures IntendedLongDescription(IntendedLongDescription(doc)) == IntendedLongDescription(doc)
  {
    var s := StartOffset(doc);
    var r := IntendedLongDescription(doc);
    IntendedExcludesEnd(doc);
    if r == [] {
      assert !Contains(r, StartMarker);
    } else if Contains(doc, StartMarker) {
      assert forall e :: FirstOccurrence(doc, EndMarker, e) ==> s <= e;
      IntendedOpensWithHeading(doc);
      assert OccursAt(r, StartMarker, 0);
      assert FirstOccurrence(r, StartMarker, 0);
    } else {
      assert s == 0;
      if Contains(r, StartMarker) {
        var p :| 0 <= p <= |r| - |StartMarker| && OccursAt(r, StartMarker, p);
        OccursInSlice(doc, 0, |r|, StartMarker, p);
      }
    }
  }
}
