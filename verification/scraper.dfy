/** The traversal of `SolusScraper` (scraper.py) as a trace: the navigation
    calls it makes and the records it writes, in order, over an abstract
    catalog tree. What the parser would read off each page (the subjects of
    a letter, the courses of a subject, ...) is the tree. */
module Scraper {
  import opened Py
  import Jobs
  import opened Navigation

  type Record = map<string, Value>

  const COURSE_KEY := "course"
  const SUBJECT_KEY := "subject"
  const YEAR_KEY := "year"
  const SEASON_KEY := "season"

  /** A section as the course page lists it: its index on the page, its
      basic attributes, its other parts (meeting times, ...) and the parts
      its own page adds in a deep scrape. */
  datatype SectionNode = SectionNode(unique: Value, basic: Record, parts: map<string, Record>, deep: map<string, Record>)
  datatype TermNode = TermNode(unique: Value, year: Value, season: Value, sections: seq<SectionNode>)
  datatype CourseNode = CourseNode(unique: Value, title: Value, number: Value, description: Value, extra: Record, terms: seq<TermNode>)
  datatype SubjectNode = SubjectNode(unique: Value, abbreviation: Value, title: Value, courses: seq<CourseNode>)

  /** The subjects listed under each letter. */
  type Catalog = char -> seq<SubjectNode>

  datatype SubjectRecord = SubjectRecord(unique: Value, abbreviation: Value, title: Value)
  datatype CourseRecord = CourseRecord(title: Value, number: Value, description: Value, subject: Value, extra: Record)
  datatype SectionRecord = SectionRecord(basic: Record, parts: map<string, Record>)

  /** One step of a scrape: a navigation call, a merge of a section's deep
      attributes, a write, or the page dump made when the scrape fails. */
  datatype Event =
    | Nav(call: Call)
    | MergeDeep(index: nat)
    | WriteSubject(subject: SubjectRecord)
    | WriteCourse(course: CourseRecord)
    | WriteSection(section: SectionRecord)
    | DumpHtml

  // ------------------------------------------------------------------
  // Index enumeration
  // ------------------------------------------------------------------

  /** i is start + k*step for some k >= 0. */
  predicate OnGrid(i: int, start: int, step: int)
    requires step > 0
  {
    i >= start && (i - start) % step == 0
  }

  /** The indices an enumeration with these bounds visits on a page listing
      `count` elements: from `start` by `step`, below the end bound clamped
      to the count, skipping negative indices. */
  function Pick(start: int, end: Option<int>, step: int, count: nat): (idx: seq<nat>)
    ensures forall k :: 0 <= k < |idx| ==> idx[k] < count
    ensures forall i: nat :: i in idx <==>
              i < count && (end.None? || i < end.value) && step > 0 && OnGrid(i, start, step)
    ensures forall k, l :: 0 <= k < l < |idx| ==> idx[k] < idx[l]
  {
    var bound := if end.Some? && end.value < count then end.value else count;
    if step <= 0 then [] else
      assert OnGrid(start, start, step);
      PickFrom(start, start, bound, step)
  }

  /** The grid points i >= from below the bound. */
  function PickFrom(start: int, from: int, bound: int, step: int): (idx: seq<nat>)
    requires step > 0 && OnGrid(from, start, step)
    ensures forall k :: 0 <= k < |idx| ==> from <= idx[k] < bound
    ensures forall i: nat :: i in idx <==> from <= i < bound && OnGrid(i, start, step)
    ensures forall k, l :: 0 <= k < l < |idx| ==> idx[k] < idx[l]
    decreases bound - from
  {
    if from >= bound then []
    else
      StepsBetween(start, from, step);
      var rest := PickFrom(start, from + step, bound, step);
      if from < 0 then rest else [from as nat] + rest
  }

  /** The next grid point after `from` is `from + step`. */
  lemma StepsBetween(start: int, from: int, step: int)
    requires step > 0 && OnGrid(from, start, step)
    ensures OnGrid(from + step, start, step)
    ensures forall i :: from < i < from + step ==> !OnGrid(i, start, step)
  {
    var q := (from - start) / step;
    assert from - start == q * step;
    Jobs.DivMod(from + step - start, step, q + 1, 0);
    forall i | from < i < from + step
      ensures !OnGrid(i, start, step)
    {
      Jobs.DivMod(i - start, step, q, i - from);
    }
  }

  // ------------------------------------------------------------------
  // The trace
  // ------------------------------------------------------------------

  function Tagged(course: CourseNode, abbreviation: Value, term: TermNode, s: SectionNode, deep: bool): SectionRecord {
    var parts := if deep then s.parts + s.deep else s.parts;
    SectionRecord(s.basic[COURSE_KEY := course.number][SUBJECT_KEY := abbreviation][YEAR_KEY := term.year][SEASON_KEY := term.season], parts)
  }

  /** `scrape_sections`: in a deep scrape every section page is visited
      first, in index order; then every section is written. */
  function SectionEvents(course: CourseNode, abbreviation: Value, term: TermNode, deep: bool): seq<Event> {
    (if deep then Visits(term.sections, 0) else [])
    + seq(|term.sections|, i requires 0 <= i < |term.sections| =>
            WriteSection(Tagged(course, abbreviation, term, term.sections[i], deep)))
  }

  /** Visit, merge, return, for sections[i..]. */
  function Visits(sections: seq<SectionNode>, i: nat): seq<Event>
    requires i <= |sections|
    decreases |sections| - i
  {
    if i == |sections| then []
    else [Nav(VisitSectionPageCall(sections[i].unique)), MergeDeep(i), Nav(ReturnFromSectionCall)]
         + Visits(sections, i + 1)
  }

  /** `scrape_terms`. */
  function TermEvents(course: CourseNode, abbreviation: Value, terms: seq<TermNode>, deep: bool): seq<Event> {
    if terms == [] then []
    else [Nav(SwitchToTermCall(terms[0].unique)), Nav(ViewAllSectionsCall)]
         + SectionEvents(course, abbreviation, terms[0], deep)
         + TermEvents(course, abbreviation, terms[1..], deep)
  }

  function CourseBlock(abbreviation: Value, c: CourseNode, deep: bool): seq<Event> {
    [Nav(OpenCourseCall(c.unique)),
     WriteCourse(CourseRecord(c.title, c.number, c.description, abbreviation, c.extra)),
     Nav(ShowSectionsCall)]
    + TermEvents(c, abbreviation, c.terms, deep)
    + [Nav(ReturnFromCourseCall)]
  }

  /** `scrape_courses`, over the picked course indices. */
  function CourseEvents(sub: SubjectNode, idx: seq<nat>, deep: bool): seq<Event>
    requires forall k :: 0 <= k < |idx| ==> idx[k] < |sub.courses|
  {
    if idx == [] then []
    else CourseBlock(sub.abbreviation, sub.courses[idx[0]], deep) + CourseEvents(sub, idx[1..], deep)
  }

  function SubjectBlock(job: Jobs.Job, sub: SubjectNode): seq<Event> {
    [WriteSubject(SubjectRecord(sub.unique, sub.abbreviation, sub.title)), Nav(DropdownSubjectCall(sub.unique))]
    + CourseEvents(sub, Pick(job.courseStart, job.courseEnd, 1, |sub.courses|), job.deep)
    + [Nav(RollupSubjectCall(sub.unique))]
  }

  /** `scrape_subjects`, over the picked subject indices. */
  function SubjectEvents(job: Jobs.Job, subjects: seq<SubjectNode>, idx: seq<nat>): seq<Event>
    requires forall k :: 0 <= k < |idx| ==> idx[k] < |subjects|
  {
    if idx == [] then []
    else SubjectBlock(job, subjects[idx[0]]) + SubjectEvents(job, subjects, idx[1..])
  }

  function SubjectsOf(job: Jobs.Job, subjects: seq<SubjectNode>): seq<nat> {
    Pick(job.subjectStart, job.subjectEnd, job.subjectStep, |subjects|)
  }

  function LetterBlock(job: Jobs.Job, cat: Catalog, letter: char): seq<Event> {
    [Nav(SelectAlphanumCall(PyStr([letter])))] + SubjectEvents(job, cat(letter), SubjectsOf(job, cat(letter)))
  }

  /** `scrape_letters`, over letters. */
  function LetterEvents(job: Jobs.Job, cat: Catalog, letters: string): seq<Event> {
    if letters == [] then []
    else LetterBlock(job, cat, letters[0]) + LetterEvents(job, cat, letters[1..])
  }

  /** `start`: the whole trace, or, when the event at position `failAt`
      raises, the trace up to it, the page dump, and the exception. */
  function Start(job: Jobs.Job, cat: Catalog, failAt: Option<(nat, Exc)>): (r: (seq<Event>, Result<()>))
    ensures failAt.None? || failAt.value.0 >= |LetterEvents(job, cat, job.letters)| ==>
              r == (LetterEvents(job, cat, job.letters), Ok(()))
    ensures failAt.Some? && failAt.value.0 < |LetterEvents(job, cat, job.letters)| ==>
              && r.1 == Err(failAt.value.1)
              && |r.0| == failAt.value.0 + 1
              && r.0[..|r.0| - 1] <= LetterEvents(job, cat, job.letters)
              && r.0[|r.0| - 1] == DumpHtml
  {
    var trace := LetterEvents(job, cat, job.letters);
    match failAt
    case Some((k, exc)) =>
      if k < |trace| then (trace[..k] + [DumpHtml], Err(exc)) else (trace, Ok(()))
    case None => (trace, Ok(()))
  }

  // ------------------------------------------------------------------
  // Properties of the trace
  // ------------------------------------------------------------------

  predicate Only(events: seq<Event>, P: Event -> bool) {
    forall k :: 0 <= k < |events| ==> P(events[k])
  }

  predicate IsSelect(e: Event) { e.Nav? && e.call.SelectAlphanumCall? }
  predicate IsVisit(e: Event) { e.Nav? && e.call.VisitSectionPageCall? }

  /** Every event below the letter level is accepted by P: the events of a
      subject block are neither letter selections nor, in a shallow scrape,
      section visits. */
  ghost predicate CoversInner(P: Event -> bool, deep: bool) {
    forall e: Event :: !IsSelect(e) && (deep || !IsVisit(e)) ==> P(e)
  }

  lemma {:induction false} VisitsOnly(sections: seq<SectionNode>, i: nat, P: Event -> bool)
    requires i <= |sections|
    requires CoversInner(P, true)
    ensures Only(Visits(sections, i), P)
    decreases |sections| - i
  {
    if i < |sections| {
      VisitsOnly(sections, i + 1, P);
      assert P(Nav(VisitSectionPageCall(sections[i].unique))) && P(MergeDeep(i)) && P(Nav(ReturnFromSectionCall));
    }
  }

  lemma {:induction false} TermEventsOnly(course: CourseNode, abbreviation: Value, terms: seq<TermNode>, deep: bool, P: Event -> bool)
    requires CoversInner(P, deep)
    ensures Only(TermEvents(course, abbreviation, terms, deep), P)
    decreases |terms|
  {
    if terms != [] {
      TermEventsOnly(course, abbreviation, terms[1..], deep, P);
      if deep {
        VisitsOnly(terms[0].sections, 0, P);
      }
      var head := [Nav(SwitchToTermCall(terms[0].unique)), Nav(ViewAllSectionsCall)];
      assert P(head[0]) && P(head[1]);
      var ss := SectionEvents(course, abbreviation, terms[0], deep);
      assert Only(ss, P) by {
        forall k | 0 <= k < |ss| ensures P(ss[k]) {
          var vs := if deep then Visits(terms[0].sections, 0) else [];
          if k >= |vs| {
            assert ss[k].WriteSection?;
          }
        }
      }
    }
  }

  lemma {:induction false} CourseEventsOnly(sub: SubjectNode, idx: seq<nat>, deep: bool, P: Event -> bool)
    requires forall k :: 0 <= k < |idx| ==> idx[k] < |sub.courses|
    requires CoversInner(P, deep)
    ensures Only(CourseEvents(sub, idx, deep), P)
    decreases |idx|
  {
    if idx != [] {
      CourseEventsOnly(sub, idx[1..], deep, P);
      var c := sub.courses[idx[0]];
      TermEventsOnly(c, sub.abbreviation, c.terms, deep, P);
      assert P(Nav(OpenCourseCall(c.unique))) && P(Nav(ShowSectionsCall)) && P(Nav(ReturnFromCourseCall));
      assert P(WriteCourse(CourseRecord(c.title, c.number, c.description, sub.abbreviation, c.extra)));
    }
  }

  lemma {:induction false} SubjectEventsOnly(job: Jobs.Job, subjects: seq<SubjectNode>, idx: seq<nat>, P: Event -> bool)
    requires forall k :: 0 <= k < |idx| ==> idx[k] < |subjects|
    requires CoversInner(P, job.deep)
    ensures Only(SubjectEvents(job, subjects, idx), P)
    decreases |idx|
  {
    if idx != [] {
      SubjectEventsOnly(job, subjects, idx[1..], P);
      var sub := subjects[idx[0]];
      CourseEventsOnly(sub, Pick(job.courseStart, job.courseEnd, 1, |sub.courses|), job.deep, P);
      assert P(WriteSubject(SubjectRecord(sub.unique, sub.abbreviation, sub.title)));
      assert P(Nav(DropdownSubjectCall(sub.unique))) && P(Nav(RollupSubjectCall(sub.unique)));
    }
  }

  /** A shallow scrape visits no section page. */
  lemma {:induction false} ShallowVisitsNoSection(job: Jobs.Job, cat: Catalog, letters: string)
    requires !job.deep
    ensures Only(LetterEvents(job, cat, letters), e => !IsVisit(e))
    decreases |letters|
  {
    if letters != [] {
      ShallowVisitsNoSection(job, cat, letters[1..]);
      SubjectEventsOnly(job, cat(letters[0]), SubjectsOf(job, cat(letters[0])), e => !IsVisit(e));
    }
  }

  /** The letters a trace selects, in order. */
  function Selections(events: seq<Event>): seq<Value> {
    if events == [] then []
    else (if IsSelect(events[0]) then [events[0].call.letter] else []) + Selections(events[1..])
  }

  lemma {:induction false} SelectionsAppend(a: seq<Event>, b: seq<Event>)
    ensures Selections(a + b) == Selections(a) + Selections(b)
    decreases |a|
  {
    if a != [] {
      SelectionsAppend(a[1..], b);
      assert (a + b)[0] == a[0];
      assert (a + b)[1..] == a[1..] + b;
    } else {
      assert a + b == b;
    }
  }

  lemma {:induction false} SelectionsNone(events: seq<Event>)
    requires Only(events, e => !IsSelect(e))
    ensures Selections(events) == []
    decreases |events|
  {
    if events != [] {
      SelectionsNone(events[1..]);
    }
  }

  /** Letters are scraped in job order, each selected once, before its
      subjects. */
  lemma {:induction false} LettersInOrder(job: Jobs.Job, cat: Catalog, letters: string)
    ensures Selections(LetterEvents(job, cat, letters)) == seq(|letters|, i requires 0 <= i < |letters| => PyStr([letters[i]]))
    ensures letters != [] ==> LetterEvents(job, cat, letters)[0] == Nav(SelectAlphanumCall(PyStr([letters[0]])))
    decreases |letters|
  {
    if letters != [] {
      var c := letters[0];
      var rest := LetterEvents(job, cat, letters[1..]);
      LetterBlockSelects(job, cat, c);
      SelectionsAppend(LetterBlock(job, cat, c), rest);
      LettersInOrder(job, cat, letters[1..]);
    }
  }

  /** A letter's block selects that letter and nothing else. */
  lemma LetterBlockSelects(job: Jobs.Job, cat: Catalog, c: char)
    ensures Selections(LetterBlock(job, cat, c)) == [PyStr([c])]
  {
    var subs := SubjectEvents(job, cat(c), SubjectsOf(job, cat(c)));
    SubjectEventsOnly(job, cat(c), SubjectsOf(job, cat(c)), e => !IsSelect(e));
    SelectionsNone(subs);
    SelectionsAppend([Nav(SelectAlphanumCall(PyStr([c])))], subs);
    assert Selections([Nav(SelectAlphanumCall(PyStr([c])))]) == [PyStr([c])];
  }

  /** The section records a trace writes, in order. */
  function SectionWrites(events: seq<Event>): seq<SectionRecord> {
    if events == [] then []
    else (if events[0].WriteSection? then [events[0].section] else []) + SectionWrites(events[1..])
  }

  lemma {:induction false} SectionWritesAppend(a: seq<Event>, b: seq<Event>)
    ensures SectionWrites(a + b) == SectionWrites(a) + SectionWrites(b)
    decreases |a|
  {
    if a != [] {
      SectionWritesAppend(a[1..], b);
      assert (a + b)[0] == a[0];
      assert (a + b)[1..] == a[1..] + b;
    } else {
      assert a + b == b;
    }
  }

  lemma {:induction false} VisitsWriteNothing(sections: seq<SectionNode>, i: nat)
    requires i <= |sections|
    ensures SectionWrites(Visits(sections, i)) == []
    decreases |sections| - i
  {
    if i < |sections| {
      VisitsWriteNothing(sections, i + 1);
      var head := [Nav(VisitSectionPageCall(sections[i].unique)), MergeDeep(i), Nav(ReturnFromSectionCall)];
      SectionWritesAppend(head, Visits(sections, i + 1));
      assert SectionWrites(head[2..]) == [];
      assert SectionWrites(head[1..]) == [];
      assert SectionWrites(head) == [];
    }
  }

  lemma {:induction false} WritesOfWrites(ws: seq<SectionRecord>)
    ensures SectionWrites(seq(|ws|, i requires 0 <= i < |ws| => WriteSection(ws[i]))) == ws
    decreases |ws|
  {
    if ws != [] {
      var es := seq(|ws|, i requires 0 <= i < |ws| => WriteSection(ws[i]));
      WritesOfWrites(ws[1..]);
      assert es[1..] == seq(|ws[1..]|, i requires 0 <= i < |ws[1..]| => WriteSection(ws[1..][i]));
    }
  }

  /** Each section of a term is written exactly once, in index order, and
      its record carries the course number, the subject abbreviation, the
      term's year and season, and (in a deep scrape) its deep attributes. */
  lemma SectionsWrittenOnce(course: CourseNode, abbreviation: Value, term: TermNode, deep: bool)
    ensures var ws := SectionWrites(SectionEvents(course, abbreviation, term, deep));
            && |ws| == |term.sections|
            && forall i :: 0 <= i < |ws| ==>
                 && ws[i].basic == term.sections[i].basic[COURSE_KEY := course.number][SUBJECT_KEY := abbreviation]
                                                         [YEAR_KEY := term.year][SEASON_KEY := term.season]
                 && ws[i].parts == (if deep then term.sections[i].parts + term.sections[i].deep else term.sections[i].parts)
  {
    var ws := seq(|term.sections|, i requires 0 <= i < |term.sections| => Tagged(course, abbreviation, term, term.sections[i], deep));
    assert SectionWrites(SectionEvents(course, abbreviation, term, deep)) == ws by {
      var vs := if deep then Visits(term.sections, 0) else [];
      var es := seq(|ws|, i requires 0 <= i < |ws| => WriteSection(ws[i]));
      assert SectionEvents(course, abbreviation, term, deep) == vs + es;
      SectionWritesAppend(vs, es);
      if deep {
        VisitsWriteNothing(term.sections, 0);
      }
      WritesOfWrites(ws);
    }
  }

  /** In a deep scrape the section pages are visited in index order, each
      followed by the merge of its deep attributes and the return to the
      course page, before any section is written. */
  lemma {:induction false} VisitsInOrder(sections: seq<SectionNode>, i: nat)
    requires i <= |sections|
    ensures |Visits(sections, i)| == 3 * (|sections| - i)
    ensures forall j :: i <= j < |sections| ==>
              && Visits(sections, i)[3 * (j - i)] == Nav(VisitSectionPageCall(sections[j].unique))
              && Visits(sections, i)[3 * (j - i) + 1] == MergeDeep(j)
              && Visits(sections, i)[3 * (j - i) + 2] == Nav(ReturnFromSectionCall)
    decreases |sections| - i
  {
    if i < |sections| {
      VisitsInOrder(sections, i + 1);
    }
  }

  /** The trace a failing scrape leaves is a prefix of the full trace
      followed by exactly one page dump, and the exception is re-raised. */
  lemma FailureDumpsOnce(job: Jobs.Job, cat: Catalog, k: nat, exc: Exc)
    requires k < |LetterEvents(job, cat, job.letters)|
    ensures var (events, result) := Start(job, cat, Some((k, exc)));
            && result == Err(exc)
            && events == LetterEvents(job, cat, job.letters)[..k] + [DumpHtml]
  {
  }

  // ------------------------------------------------------------------
  // Sub-jobs and subject indices
  // ------------------------------------------------------------------

  /** With no subject end bound, a sub-job visits exactly the subject
      indices on the page its step pattern admits. */
  lemma PickedSubjects(job: Jobs.Job, subjects: seq<SubjectNode>, i: nat)
    requires job.subjectEnd.None?
    ensures i in SubjectsOf(job, subjects) <==> i < |subjects| && Jobs.Admits(job, i)
  {
  }

  /** The sub-jobs of one letter scrape every subject of that letter's page
      exactly once between them: subject i is picked by the sub-job of slot
      i % tpl and by no other (when the base job has no subject end bound). */
  lemma SubJobsPickEachSubjectOnce(config: Jobs.Config, a: nat, subjects: seq<SubjectNode>, i: nat)
    requires Jobs.MakeJobs(config).Ok?
    requires a < |Jobs.BaseJob(config).value.letters|
    requires Jobs.BaseJob(config).value.subjectEnd.None?
    requires i < |subjects|
    ensures var base := Jobs.BaseJob(config).value;
            var tpl := Jobs.ThreadsPerLetter(Jobs.ClampThreads(config.threads), |base.letters|).value;
            var jobs := Jobs.MakeJobs(config).value;
            && i in SubjectsOf(jobs[Jobs.QueuePos(a, tpl, Jobs.SlotOf(i, tpl))], subjects)
            && forall s: nat :: s < tpl && i in SubjectsOf(jobs[Jobs.QueuePos(a, tpl, s)], subjects) ==> s == Jobs.SlotOf(i, tpl)
  {
    var base := Jobs.BaseJob(config).value;
    var tpl := Jobs.ThreadsPerLetter(Jobs.ClampThreads(config.threads), |base.letters|).value;
    var jobs := Jobs.MakeJobs(config).value;
    Jobs.SlotsPartitionIndices(config, a, i);
    assert jobs[Jobs.QueuePos(a, tpl, Jobs.SlotOf(i, tpl))].subjectEnd.None?;
    PickedSubjects(jobs[Jobs.QueuePos(a, tpl, Jobs.SlotOf(i, tpl))], subjects, i);
    forall s: nat | s < tpl && i in SubjectsOf(jobs[Jobs.QueuePos(a, tpl, s)], subjects)
      ensures s == Jobs.SlotOf(i, tpl)
    {
      assert jobs[Jobs.QueuePos(a, tpl, s)].subjectEnd.None?;
      PickedSubjects(jobs[Jobs.QueuePos(a, tpl, s)], subjects, i);
    }
  }
}
