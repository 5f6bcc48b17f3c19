/** The recovery stack along a scrape: the traversal of scraper.py composed
    with the stack discipline of navigation.py. Every call of a walk is made
    outside a replay, so each moves the stack by `StackEffect` whatever its
    outcome (`Navigation.PerformStack`). */
module Walk {
  import opened Py
  import opened Navigation
  import opened Scraper
  import Jobs

  function Step(st: Stack, e: Event): Stack {
    if e.Nav? then StackEffect(st, e.call) else st
  }

  /** The stack after a run of events. */
  function Run(st: Stack, events: seq<Event>): Stack
    decreases |events|
  {
    if events == [] then st else Run(Step(st, events[0]), events[1..])
  }

  /** Only slots below a filled slot are filled: the stack names a path
      from the letter down. */
  predicate Gapless(st: Stack) {
    forall k :: 1 <= k < 5 && st[k] != PyNone ==> st[k - 1] != PyNone
  }

  /** A record is written at the depth of what it describes: a subject on
      its letter's page, a course on its own page, a section on its term's
      page. */
  predicate WriteDepth(st: Stack, e: Event) {
    && (e.WriteSubject? ==> AtDepth(st, 1))
    && (e.WriteCourse? ==> AtDepth(st, 3))
    && (e.WriteSection? ==> AtDepth(st, 4))
  }

  /** The stack before event e of a block whose enclosing path is `path`. */
  predicate Fits(st: Stack, e: Event, path: seq<Value>) {
    |path| <= 5 && st[..|path|] == path && Gapless(st) && WriteDepth(st, e)
  }

  /** Every event of the run meets `Fits` with the stack it finds. */
  predicate FitsAlong(st: Stack, events: seq<Event>, path: seq<Value>)
    decreases |events|
  {
    events == [] || (Fits(st, events[0], path) && FitsAlong(Step(st, events[0]), events[1..], path))
  }

  lemma {:induction false} RunAppend(st: Stack, a: seq<Event>, b: seq<Event>)
    ensures Run(st, a + b) == Run(Run(st, a), b)
    decreases |a|
  {
    if a != [] {
      assert (a + b)[0] == a[0] && (a + b)[1..] == a[1..] + b;
      RunAppend(Step(st, a[0]), a[1..], b);
    } else {
      assert a + b == b;
    }
  }

  lemma {:induction false} FitsAlongAppend(st: Stack, a: seq<Event>, b: seq<Event>, path: seq<Value>)
    requires FitsAlong(st, a, path) && FitsAlong(Run(st, a), b, path)
    ensures FitsAlong(st, a + b, path)
    decreases |a|
  {
    if a != [] {
      assert (a + b)[0] == a[0] && (a + b)[1..] == a[1..] + b;
      FitsAlongAppend(Step(st, a[0]), a[1..], b, path);
    } else {
      assert a + b == b;
    }
  }

  /** Two walks one after the other. */
  lemma Compose(st: Stack, a: seq<Event>, b: seq<Event>, path: seq<Value>)
    requires FitsAlong(st, a, path) && FitsAlong(Run(st, a), b, path)
    ensures Run(st, a + b) == Run(Run(st, a), b)
    ensures FitsAlong(st, a + b, path)
  {
    RunAppend(st, a, b);
    FitsAlongAppend(st, a, b, path);
  }

  /** A block that keeps a longer path keeps every prefix of it. */
  lemma {:induction false} FitsAlongPrefix(st: Stack, events: seq<Event>, path: seq<Value>, n: nat)
    requires FitsAlong(st, events, path) && n <= |path|
    ensures FitsAlong(st, events, path[..n])
    decreases |events|
  {
    if events != [] {
      FitsAlongPrefix(Step(st, events[0]), events[1..], path, n);
      assert st[..n] == st[..|path|][..n];
    }
  }

  lemma RunOne(st: Stack, a: Event, path: seq<Value>)
    ensures Run(st, [a]) == Step(st, a)
    ensures Fits(st, a, path) ==> FitsAlong(st, [a], path)
  {
    assert [a][1..] == [];
  }

  lemma RunTwo(st: Stack, a: Event, b: Event, path: seq<Value>)
    ensures Run(st, [a, b]) == Step(Step(st, a), b)
    ensures Fits(st, a, path) && Fits(Step(st, a), b, path) ==> FitsAlong(st, [a, b], path)
  {
    assert [a, b][1..] == [b];
    RunOne(Step(st, a), b, path);
  }

  lemma RunThree(st: Stack, a: Event, b: Event, c: Event, path: seq<Value>)
    ensures Run(st, [a, b, c]) == Step(Step(Step(st, a), b), c)
    ensures Fits(st, a, path) && Fits(Step(st, a), b, path) && Fits(Step(Step(st, a), b), c, path)
            ==> FitsAlong(st, [a, b, c], path)
  {
    assert [a, b, c][1..] == [b, c];
    RunTwo(Step(st, a), b, c, path);
  }

  /** Events that are not navigation calls leave the stack alone. */
  lemma {:induction false} QuietRun(st: Stack, events: seq<Event>, path: seq<Value>)
    requires forall k :: 0 <= k < |events| ==> !events[k].Nav? && Fits(st, events[k], path)
    ensures Run(st, events) == st && FitsAlong(st, events, path)
    decreases |events|
  {
    if events != [] {
      QuietRun(st, events[1..], path);
    }
  }

  // ------------------------------------------------------------------
  // Well-formed catalogs
  // ------------------------------------------------------------------

  /** Every element the scraper navigates to has an index. */
  predicate SectionsHaveIds(t: TermNode) {
    forall i :: 0 <= i < |t.sections| ==> t.sections[i].unique != PyNone
  }

  predicate CourseHasIds(c: CourseNode) {
    c.unique != PyNone
    && forall j :: 0 <= j < |c.terms| ==> c.terms[j].unique != PyNone && SectionsHaveIds(c.terms[j])
  }

  predicate SubjectHasIds(s: SubjectNode) {
    s.unique != PyNone && forall j :: 0 <= j < |s.courses| ==> CourseHasIds(s.courses[j])
  }

  ghost predicate CatalogHasIds(cat: Catalog) {
    forall c: char, j :: 0 <= j < |cat(c)| ==> SubjectHasIds(cat(c)[j])
  }

  // ------------------------------------------------------------------
  // The stack through each block
  // ------------------------------------------------------------------

  lemma {:induction false} VisitsWalk(st: Stack, sections: seq<SectionNode>, i: nat)
    requires i <= |sections|
    requires AtDepth(st, 4)
    requires forall j :: i <= j < |sections| ==> sections[j].unique != PyNone
    ensures Run(st, Visits(sections, i)) == st
    ensures FitsAlong(st, Visits(sections, i), st[..4])
    decreases |sections| - i
  {
    if i < |sections| {
      var u := sections[i].unique;
      var head := [Nav(VisitSectionPageCall(u)), MergeDeep(i), Nav(ReturnFromSectionCall)];
      VisitsWalk(st, sections, i + 1);
      var st1 := st[SECTION_SLOT := u];
      assert st1[..4] == st[..4];
      assert Gapless(st1);
      assert st1[SECTION_SLOT := PyNone] == st;
      RunThree(st, head[0], head[1], head[2], st[..4]);
      assert Run(st, head) == st;
      assert FitsAlong(st, head, st[..4]);
      RunAppend(st, head, Visits(sections, i + 1));
      FitsAlongAppend(st, head, Visits(sections, i + 1), st[..4]);
    }
  }

  /** A term's sections are visited and written on the term's page: at every
      section write the stack holds letter, subject, course and term. */
  lemma SectionEventsWalk(st: Stack, course: CourseNode, abbreviation: Value, term: TermNode, deep: bool)
    requires AtDepth(st, 4)
    requires SectionsHaveIds(term)
    ensures Run(st, SectionEvents(course, abbreviation, term, deep)) == st
    ensures FitsAlong(st, SectionEvents(course, abbreviation, term, deep), st[..4])
  {
    var vs := if deep then Visits(term.sections, 0) else [];
    var ws := seq(|term.sections|, i requires 0 <= i < |term.sections| =>
                    WriteSection(Tagged(course, abbreviation, term, term.sections[i], deep)));
    assert SectionEvents(course, abbreviation, term, deep) == vs + ws;
    if deep {
      VisitsWalk(st, term.sections, 0);
    }
    QuietRun(st, ws, st[..4]);
    RunAppend(st, vs, ws);
    FitsAlongAppend(st, vs, ws, st[..4]);
  }

  /** Through the terms of a course: each term is switched to and scraped on
      the course's path; afterwards the term slot holds the last term. */
  lemma {:induction false} TermEventsWalk(st: Stack, course: CourseNode, abbreviation: Value, terms: seq<TermNode>, deep: bool)
    requires st[0] != PyNone && st[1] != PyNone && st[2] != PyNone && st[4] == PyNone
    requires forall j :: 0 <= j < |terms| ==> terms[j].unique != PyNone && SectionsHaveIds(terms[j])
    ensures Run(st, TermEvents(course, abbreviation, terms, deep))
            == (if terms == [] then st else st[TERM_SLOT := terms[|terms| - 1].unique])
    ensures FitsAlong(st, TermEvents(course, abbreviation, terms, deep), st[..3])
    decreases |terms|
  {
    if terms != [] {
      var t := terms[0];
      var head := [Nav(SwitchToTermCall(t.unique)), Nav(ViewAllSectionsCall)];
      var st1 := st[TERM_SLOT := t.unique];
      var ss := SectionEvents(course, abbreviation, t, deep);
      var more := TermEvents(course, abbreviation, terms[1..], deep);
      assert st1[..3] == st[..3];
      assert Run(st, head) == st1 && FitsAlong(st, head, st[..3]) by {
        TermHeadWalk(st, t.unique);
      }
      assert Run(st1, ss) == st1 && FitsAlong(st1, ss, st[..3]) by {
        assert AtDepth(st1, 4);
        SectionEventsWalk(st1, course, abbreviation, t, deep);
        FitsAlongPrefix(st1, ss, st1[..4], 3);
        assert st1[..4][..3] == st[..3];
      }
      TermEventsWalk(st1, course, abbreviation, terms[1..], deep);
      Compose(st, head, ss, st[..3]);
      Compose(st, head + ss, more, st[..3]);
      assert TermEvents(course, abbreviation, terms, deep) == head + ss + more;
      if |terms| > 1 {
        assert terms[1..][|terms[1..]| - 1] == terms[|terms| - 1];
        assert st1[TERM_SLOT := terms[|terms| - 1].unique] == st[TERM_SLOT := terms[|terms| - 1].unique];
      }
    }
  }

  /** Switching to a term and pressing "view all" fill the term slot. */
  lemma {:induction false} TermHeadWalk(st: Stack, u: Value)
    requires st[0] != PyNone && st[1] != PyNone && st[2] != PyNone && st[4] == PyNone
    requires u != PyNone
    ensures var head := [Nav(SwitchToTermCall(u)), Nav(ViewAllSectionsCall)];
            Run(st, head) == st[TERM_SLOT := u] && FitsAlong(st, head, st[..3])
  {
    var st1 := st[TERM_SLOT := u];
    assert Gapless(st) && Gapless(st1);
    assert st1[..3] == st[..3];
    RunTwo(st, Nav(SwitchToTermCall(u)), Nav(ViewAllSectionsCall), st[..3]);
  }

  /** A course is opened, written on its own page, scraped and closed: the
      block leaves the stack as it found it. */
  lemma CourseBlockWalk(st: Stack, abbreviation: Value, c: CourseNode, deep: bool)
    requires AtDepth(st, 2)
    requires CourseHasIds(c)
    ensures Run(st, CourseBlock(abbreviation, c, deep)) == st
    ensures FitsAlong(st, CourseBlock(abbreviation, c, deep), st[..2])
  {
    var head := [Nav(OpenCourseCall(c.unique)),
                 WriteCourse(CourseRecord(c.title, c.number, c.description, abbreviation, c.extra)),
                 Nav(ShowSectionsCall)];
    var st1 := st[COURSE_SLOT := c.unique];
    var ts := TermEvents(c, abbreviation, c.terms, deep);
    var tail := [Nav(ReturnFromCourseCall)];
    assert Run(st, head) == st1 && FitsAlong(st, head, st[..2]) by {
      assert AtDepth(st1, 3);
      assert Gapless(st) && Gapless(st1);
      assert st1[..2] == st[..2];
      RunThree(st, head[0], head[1], head[2], st[..2]);
    }
    var st2 := Run(st1, ts);
    assert FitsAlong(st1, ts, st[..2]) && st2[..2] == st[..2] && Gapless(st2) && st2[COURSE_SLOT] == c.unique by {
      TermEventsWalk(st1, c, abbreviation, c.terms, deep);
      FitsAlongPrefix(st1, ts, st1[..3], 2);
      assert st1[..3][..2] == st[..2];
    }
    assert Run(st2, tail) == st && FitsAlong(st2, tail, st[..2]) by {
      TermEventsWalk(st1, c, abbreviation, c.terms, deep);
      RunOne(st2, tail[0], st[..2]);
    }
    Compose(st, head, ts, st[..2]);
    Compose(st, head + ts, tail, st[..2]);
  }

  lemma {:induction false} CourseEventsWalk(st: Stack, sub: SubjectNode, idx: seq<nat>, deep: bool)
    requires AtDepth(st, 2)
    requires SubjectHasIds(sub)
    requires forall k :: 0 <= k < |idx| ==> idx[k] < |sub.courses|
    ensures Run(st, CourseEvents(sub, idx, deep)) == st
    ensures FitsAlong(st, CourseEvents(sub, idx, deep), st[..2])
    decreases |idx|
  {
    if idx != [] {
      var b := CourseBlock(sub.abbreviation, sub.courses[idx[0]], deep);
      CourseBlockWalk(st, sub.abbreviation, sub.courses[idx[0]], deep);
      CourseEventsWalk(st, sub, idx[1..], deep);
      RunAppend(st, b, CourseEvents(sub, idx[1..], deep));
      FitsAlongAppend(st, b, CourseEvents(sub, idx[1..], deep), st[..2]);
    }
  }

  /** A subject is written on its letter's page, dropped down, scraped and
      rolled up: the block leaves the stack as it found it. */
  lemma SubjectBlockWalk(st: Stack, job: Jobs.Job, sub: SubjectNode)
    requires AtDepth(st, 1)
    requires SubjectHasIds(sub)
    ensures Run(st, SubjectBlock(job, sub)) == st
    ensures FitsAlong(st, SubjectBlock(job, sub), st[..1])
  {
    var head := [WriteSubject(SubjectRecord(sub.unique, sub.abbreviation, sub.title)), Nav(DropdownSubjectCall(sub.unique))];
    var st1 := st[SUBJECT_SLOT := sub.unique];
    assert AtDepth(st1, 2);
    assert Gapless(st) && Gapless(st1);
    assert st1[..1] == st[..1];
    RunTwo(st, head[0], head[1], st[..1]);
    assert Run(st, head) == st1;
    assert FitsAlong(st, head, st[..1]);
    var cs := CourseEvents(sub, Pick(job.courseStart, job.courseEnd, 1, |sub.courses|), job.deep);
    CourseEventsWalk(st1, sub, Pick(job.courseStart, job.courseEnd, 1, |sub.courses|), job.deep);
    FitsAlongPrefix(st1, cs, st1[..2], 1);
    assert st1[..2][..1] == st[..1];
    var tail := [Nav(RollupSubjectCall(sub.unique))];
    assert Run(st1, tail) == st;
    assert FitsAlong(st1, tail, st[..1]);
    RunAppend(st, head, cs);
    FitsAlongAppend(st, head, cs, st[..1]);
    RunAppend(st, head + cs, tail);
    FitsAlongAppend(st, head + cs, tail, st[..1]);
  }

  lemma {:induction false} SubjectEventsWalk(st: Stack, job: Jobs.Job, subjects: seq<SubjectNode>, idx: seq<nat>)
    requires AtDepth(st, 1)
    requires forall j :: 0 <= j < |subjects| ==> SubjectHasIds(subjects[j])
    requires forall k :: 0 <= k < |idx| ==> idx[k] < |subjects|
    ensures Run(st, SubjectEvents(job, subjects, idx)) == st
    ensures FitsAlong(st, SubjectEvents(job, subjects, idx), st[..1])
    decreases |idx|
  {
    if idx != [] {
      var b := SubjectBlock(job, subjects[idx[0]]);
      SubjectBlockWalk(st, job, subjects[idx[0]]);
      SubjectEventsWalk(st, job, subjects, idx[1..]);
      RunAppend(st, b, SubjectEvents(job, subjects, idx[1..]));
      FitsAlongAppend(st, b, SubjectEvents(job, subjects, idx[1..]), st[..1]);
    }
  }

  /** Between letters only the letter slot may hold a value. */
  predicate AtLetterLevel(st: Stack) {
    forall k :: 1 <= k < 5 ==> st[k] == PyNone
  }

  /** The stack along a whole scrape: starting at the letter level, every
      event finds a gapless stack, every record is written at its own depth,
      and each letter ends back at the letter level with its letter in
      slot 0. */
  lemma {:induction false} LetterEventsWalk(st: Stack, job: Jobs.Job, cat: Catalog, letters: string)
    requires AtLetterLevel(st)
    requires CatalogHasIds(cat)
    ensures FitsAlong(st, LetterEvents(job, cat, letters), [])
    ensures letters != [] ==> Run(st, LetterEvents(job, cat, letters)) == st[LETTER_SLOT := PyStr([letters[|letters| - 1]])]
    ensures letters == [] ==> Run(st, LetterEvents(job, cat, letters)) == st
    decreases |letters|
  {
    if letters != [] {
      var c := letters[0];
      var st1 := st[LETTER_SLOT := PyStr([c])];
      assert AtDepth(st1, 1);
      var head := [Nav(SelectAlphanumCall(PyStr([c])))];
      assert Gapless(st);
      assert Run(st, head) == st1;
      assert FitsAlong(st, head, []);
      var subs := SubjectEvents(job, cat(c), SubjectsOf(job, cat(c)));
      SubjectEventsWalk(st1, job, cat(c), SubjectsOf(job, cat(c)));
      FitsAlongPrefix(st1, subs, st1[..1], 0);
      RunAppend(st, head, subs);
      FitsAlongAppend(st, head, subs, []);
      assert LetterBlock(job, cat, c) == head + subs;
      assert AtLetterLevel(st1);
      LetterEventsWalk(st1, job, cat, letters[1..]);
      RunAppend(st, LetterBlock(job, cat, c), LetterEvents(job, cat, letters[1..]));
      FitsAlongAppend(st, LetterBlock(job, cat, c), LetterEvents(job, cat, letters[1..]), []);
      if |letters| > 1 {
        assert letters[1..][|letters[1..]| - 1] == letters[|letters| - 1];
      }
    }
  }

  /** A scrape from a fresh session keeps the stack in place throughout. */
  lemma ScrapeKeepsStackInPlace(job: Jobs.Job, cat: Catalog)
    requires CatalogHasIds(cat)
    ensures FitsAlong(Fresh().stack, LetterEvents(job, cat, job.letters), [])
  {
    LetterEventsWalk(Fresh().stack, job, cat, job.letters);
  }

  /** On a gapless stack whose values are all truthy the replay depth is
      the navigation depth, so a recovery anywhere in such a walk replays
      exactly the levels of the current position. */
  lemma ReplayDepthOfPosition(st: Stack)
    requires Gapless(st)
    requires forall k :: 0 <= k < 5 && st[k] != PyNone ==> Truthy(st[k])
    ensures exists d :: 0 <= d <= 5 && AtDepth(st, d) && ReplayDepth(st) == d
  {
    var d := if st[0] == PyNone then 0 else if st[1] == PyNone then 1 else if st[2] == PyNone then 2
             else if st[3] == PyNone then 3 else if st[4] == PyNone then 4 else 5;
    assert st[1] != PyNone ==> st[0] != PyNone;
    assert st[2] != PyNone ==> st[1] != PyNone;
    assert st[3] != PyNone ==> st[2] != PyNone;
    assert st[4] != PyNone ==> st[3] != PyNone;
    assert AtDepth(st, d);
  }
}
