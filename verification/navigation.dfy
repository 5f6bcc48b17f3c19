/** The navigation layer of `SolusSession` (navigation.py): the five-slot
    recovery stack, the recovery cursor, the catalog POST and the replay
    protocol that runs when a response reports a "Data Integrity Error".

    The remote site is an oracle `Env`: page k is the page the session holds
    after its k-th POST (page 0 is the page it holds when the model starts);
    `body(k)` is that page's text and `onPage(k, id)` says whether an element
    with that id is on it. The session logs every POST body it sends, and
    `maxPosts` bounds how many POSTs the site answers, which makes the
    otherwise unbounded retry recursion a total function. */
module Navigation {
  import opened Py
  import opened Text
  import Parser

  // ------------------------------------------------------------------
  // Constants
  // ------------------------------------------------------------------

  const ICACTION := "ICAction"
  const ERROR_MARKER := "Data Integrity Error"
  const ALPHANUM_PREFIX := "DERIVED_SSS_BCC_SSR_ALPHANUM_"
  const RETURN_FROM_COURSE_ID := "DERIVED_SAA_CRS_RETURN_PB"
  const SHOW_SECTIONS_ID := "DERIVED_SAA_CRS_SSR_PB_GO"
  const SWITCH_TERM_ID := "DERIVED_SAA_CRS_SSR_PB_GO$98$"
  const TERM_FIELD := "DERIVED_SAA_CRS_TERM_ALT"
  const VIEW_ALL_ID := "CLASS_TBL_VW5$fviewall$0"
  const RETURN_FROM_SECTION_ID := "CLASS_SRCH_WRK2_SSR_PB_CLOSE"

  /** Recovery stack slot numbers. */
  const LETTER_SLOT := 0
  const SUBJECT_SLOT := 1
  const COURSE_SLOT := 2
  const TERM_SLOT := 3
  const SECTION_SLOT := 4

  // ------------------------------------------------------------------
  // State
  // ------------------------------------------------------------------

  /** letter, subject index, course index, term id, section index */
  type Stack = s: seq<Value> | |s| == 5 witness [PyNone, PyNone, PyNone, PyNone, PyNone]

  /** A POST body: field name to value. */
  type Payload = map<string, Value>

  /** `recoveryState < 0` means not recovering; otherwise it is the replay
      cursor. `posts` is the log of every POST body sent so far. */
  datatype Session = Session(recoveryState: int, stack: Stack, posts: seq<Payload>)

  datatype Env = Env(body: nat -> string, onPage: (nat, string) -> bool, maxPosts: nat)

  /** How a navigation call ends: it returns, it raises, or the site stops
      answering (`maxPosts` reached). */
  datatype Outcome =
    | Returned(session: Session)
    | Threw(session: Session, exc: Exc)
    | Exhausted(session: Session)

  /** `__init__`: not recovering, all five slots empty, nothing posted. */
  function Fresh(): (s: Session)
    ensures s.recoveryState == -1
    ensures forall k :: 0 <= k < 5 ==> s.stack[k] == PyNone
    ensures s.posts == []
  {
    Session(-1, [PyNone, PyNone, PyNone, PyNone, PyNone], [])
  }

  /** The error detection test: a plain substring match. */
  predicate IsErrorPage(body: string) {
    Contains(body, ERROR_MARKER)
  }

  /** The parser's view of the page the session currently holds. */
  function CurrentPage(env: Env, s: Session): string -> bool {
    (id: string) => env.onPage(|s.posts|, id)
  }

  /** A POST body carrying only an action. */
  function Action(action: string): Payload {
    map[ICACTION := PyStr(action)]
  }

  /** The number of POSTs the site will still answer. */
  function Fuel(env: Env, s: Session): nat {
    if |s.posts| < env.maxPosts then env.maxPosts - |s.posts| else 0
  }

  /** Writes a slot, but only while not recovering. */
  function WriteSlot(s: Session, k: nat, v: Value): (s': Session)
    requires k < 5
    ensures s'.posts == s.posts && s'.recoveryState == s.recoveryState
  {
    if s.recoveryState < 0 then s.(stack := s.stack[k := v]) else s
  }

  /** The stack of a session at navigation depth d: slots below d hold
      values and the rest are empty. */
  predicate AtDepth(st: Stack, d: nat) {
    forall k :: 0 <= k < 5 ==> (st[k] != PyNone <==> k < d)
  }

  function Count(b: bool): nat { if b then 1 else 0 }

  /** The number of slots that hold a value: the navigation depth of a
      stack at any depth. */
  function FilledSlots(st: Stack): (n: nat)
    ensures n <= 5
    ensures forall d :: 0 <= d <= 5 && AtDepth(st, d) ==> n == d
  {
    Count(st[0] != PyNone) + Count(st[1] != PyNone) + Count(st[2] != PyNone)
    + Count(st[3] != PyNone) + Count(st[4] != PyNone)
  }

  /** The replay depth N, `len(filter(None, self.recovery_stack))`: the
      number of truthy slots, so a slot holding index 0 (or "") is not
      counted. It is the navigation depth exactly when no slot holds such a
      value, and otherwise falls short of it. */
  function ReplayDepth(st: Stack): (n: nat)
    ensures n <= FilledSlots(st)
    ensures n == FilledSlots(st) <==> forall k :: 0 <= k < 5 && st[k] != PyNone ==> Truthy(st[k])
  {
    Count(Truthy(st[0])) + Count(Truthy(st[1])) + Count(Truthy(st[2]))
    + Count(Truthy(st[3])) + Count(Truthy(st[4]))
  }

  /** Inside subject 0, course 0 the navigation depth is 3, but only the
      letter is counted: a recovery replays the letter alone before
      re-posting. The levels dropped are the deepest ones, not the slot
      that holds the 0. */
  lemma ZeroIndexShortensReplay()
    ensures AtDepth([PyStr("A"), PyInt(0), PyInt(0), PyNone, PyNone], 3)
    ensures FilledSlots([PyStr("A"), PyInt(0), PyInt(0), PyNone, PyNone]) == 3
    ensures ReplayDepth([PyStr("A"), PyInt(0), PyInt(0), PyNone, PyNone]) == 1
    ensures ReplayDepth([PyStr("A"), PyInt(0), PyInt(5), PyStr("2150"), PyNone]) == 3
  {
  }

  /** What every navigation call promises about the session: the POST log
      only grows, the site's remaining budget never grows, a replay in
      progress stays in progress, and a call made while not recovering
      returns (if it returns) not recovering. */
  predicate Advances(env: Env, s: Session, r: Outcome) {
    && s.posts <= r.session.posts
    && Fuel(env, r.session) <= Fuel(env, s)
    && (s.recoveryState >= 0 ==> r.session.recoveryState >= 0)
    && (s.recoveryState == -1 && r.Returned? ==> r.session.recoveryState == -1)
  }

  /** `Advances`, and a call that returns has sent at least one POST. */
  predicate Posts(env: Env, s: Session, r: Outcome) {
    Advances(env, s, r) && (r.Returned? ==> Fuel(env, r.session) < Fuel(env, s))
  }

  // ------------------------------------------------------------------
  // _catalog_post and _recover
  // ------------------------------------------------------------------

  /** `_catalog_post(action, extras)`: POSTs the extras with ICAction set to
      the action, then recovers if the response carries the error marker. */
  function CatalogPost(env: Env, s: Session, action: string, extras: Payload): (r: Outcome)
    ensures Posts(env, s, r)
    ensures r.session.stack == s.stack
    ensures Fuel(env, s) > 0 ==>
              |r.session.posts| > |s.posts| && r.session.posts[|s.posts|] == extras[ICACTION := PyStr(action)]
    ensures Fuel(env, s) > 0 && !IsErrorPage(env.body(|s.posts| + 1)) ==>
              r == Returned(s.(posts := s.posts + [extras[ICACTION := PyStr(action)]]))
    ensures Fuel(env, s) > 0 && IsErrorPage(env.body(|s.posts| + 1)) && s.recoveryState >= 0 ==>
              r == Returned(s.(posts := s.posts + [extras[ICACTION := PyStr(action)]], recoveryState := 0))
    ensures Fuel(env, s) == 0 ==> r == Exhausted(s)
    ensures r.Returned? ==> |r.session.posts| > 0 && r.session.posts[|r.session.posts| - 1] == extras[ICACTION := PyStr(action)]
    decreases Fuel(env, s), 0
  {
    if |s.posts| >= env.maxPosts then Exhausted(s)
    else
      var s1 := s.(posts := s.posts + [extras[ICACTION := PyStr(action)]]);
      if IsErrorPage(env.body(|s1.posts|)) then Recover(env, s1, action, extras)
      else Returned(s1)
  }

  /** `_recover(action, extras)`. Inside a replay it only rewinds the cursor
      to 0, so the enclosing replay loop starts over at level 1. Otherwise it
      replays levels 1..N, marks the session as not recovering and re-posts
      the original action and extras. */
  function Recover(env: Env, s: Session, action: string, extras: Payload): (r: Outcome)
    ensures Advances(env, s, r)
    ensures r.session.stack == s.stack
    ensures s.recoveryState >= 0 ==> r == Returned(s.(recoveryState := 0))
    ensures s.recoveryState < 0 && r.Returned? ==>
              r.session.recoveryState == -1
              && |r.session.posts| > |s.posts|
              && r.session.posts[|r.session.posts| - 1] == extras[ICACTION := PyStr(action)]
    decreases Fuel(env, s), 4
  {
    if s.recoveryState >= 0 then Returned(s.(recoveryState := 0))
    else
      var n := ReplayDepth(s.stack);
      var r1 := ReplayLoop(env, s.(recoveryState := 0), n);
      if r1.Returned? then RetryLast(env, r1.session, action, extras) else r1
  }

  /** The final re-post of `_recover`, made once the replay is over. */
  function RetryLast(env: Env, s: Session, action: string, extras: Payload): (r: Outcome)
    ensures Advances(env, s.(recoveryState := -1), r)
    ensures r.session.stack == s.stack
    ensures s.posts <= r.session.posts && Fuel(env, r.session) <= Fuel(env, s)
    ensures r.Returned? ==>
              r.session.recoveryState == -1
              && |r.session.posts| > |s.posts|
              && r.session.posts[|r.session.posts| - 1] == extras[ICACTION := PyStr(action)]
    decreases Fuel(env, s), 1
  {
    CatalogPost(env, s.(recoveryState := -1), action, extras)
  }

  /** The `while self.recovery_state < num_states` loop of `_recover`: bump
      the cursor, replay that level, repeat. A nested error rewinds the
      cursor to 0, which restarts the loop at level 1. */
  function ReplayLoop(env: Env, s: Session, n: nat): (r: Outcome)
    requires 0 <= s.recoveryState && n <= 5
    ensures Advances(env, s, r)
    ensures r.session.stack == s.stack
    ensures r.session.recoveryState >= 0
    ensures r.Returned? ==> r.session.recoveryState >= n
    decreases Fuel(env, s), 3
  {
    if s.recoveryState >= n then Returned(s)
    else
      var r1 := ReplayLevel(env, s.(recoveryState := s.recoveryState + 1));
      if r1.Returned? then ReplayLoop(env, r1.session, n) else r1
  }

  /** One replayed level; level k uses slot k-1, and level 3 also presses
      the "view class sections" button, with the button test as written. */
  function ReplayLevel(env: Env, s: Session): (r: Outcome)
    requires 1 <= s.recoveryState <= 5
    ensures Posts(env, s, r)
    ensures r.session.stack == s.stack
    decreases Fuel(env, s), 2
  {
    var k := s.recoveryState;
    if k == 1 then SelectAlphanum(env, s, s.stack[LETTER_SLOT])
    else if k == 2 then DropdownSubject(env, s, s.stack[SUBJECT_SLOT])
    else if k == 3 then
      var r1 := OpenCourse(env, s, s.stack[COURSE_SLOT]);
      if r1.Returned? then ShowSectionsAsWritten(env, r1.session) else r1
    else if k == 4 then SwitchToTerm(env, s, s.stack[TERM_SLOT])
    else VisitSectionPage(env, s, s.stack[SECTION_SLOT])
  }

  // ------------------------------------------------------------------
  // Navigation primitives
  // ------------------------------------------------------------------

  /** `select_alphanum(alphanum)`: records the letter, then POSTs the letter
      button. Anything but a string has no `upper()`, so it raises after the
      slot is written. */
  function SelectAlphanum(env: Env, s: Session, alphanum: Value): (r: Outcome)
    ensures Posts(env, s, r)
    ensures r.session.stack == (if s.recoveryState < 0 then s.stack[LETTER_SLOT := alphanum] else s.stack)
    ensures !alphanum.PyStr? ==> r == Threw(WriteSlot(s, LETTER_SLOT, alphanum), AttributeError)
    ensures alphanum.PyStr? && Fuel(env, s) > 0 ==>
              |r.session.posts| > |s.posts| && r.session.posts[|s.posts|] == Action(ALPHANUM_PREFIX + Upper(alphanum.s))
    ensures r.Returned? ==> alphanum.PyStr? && r.session.posts[|r.session.posts| - 1] == Action(ALPHANUM_PREFIX + Upper(alphanum.s))
    decreases Fuel(env, s), 1
  {
    var s1 := WriteSlot(s, LETTER_SLOT, alphanum);
    match alphanum
    case PyStr(a) => CatalogPost(env, s1, ALPHANUM_PREFIX + Upper(a), map[])
    case _ => Threw(s1, AttributeError)
  }

  /** `dropdown_subject(subject_index)`: records the index, then POSTs the
      subject link; raises (after recording) if the link is not on the page. */
  function DropdownSubject(env: Env, s: Session, index: Value): (r: Outcome)
    ensures Posts(env, s, r)
    ensures r.session.stack == (if s.recoveryState < 0 then s.stack[SUBJECT_SLOT := index] else s.stack)
    ensures !env.onPage(|s.posts|, Parser.SubjectId(index)) ==>
              r == Threw(WriteSlot(s, SUBJECT_SLOT, index), Exception("Tried to drop down an invalid subject index"))
    ensures env.onPage(|s.posts|, Parser.SubjectId(index)) && Fuel(env, s) > 0 ==>
              |r.session.posts| > |s.posts| && r.session.posts[|s.posts|] == Action(Parser.SubjectId(index))
    decreases Fuel(env, s), 1
  {
    var s1 := WriteSlot(s, SUBJECT_SLOT, index);
    match Parser.SubjectIdAtIndex(CurrentPage(env, s1), index)
    case None => Threw(s1, Exception("Tried to drop down an invalid subject index"))
    case Some(action) => CatalogPost(env, s1, action, map[])
  }

  /** `open_course(course_index)`. */
  function OpenCourse(env: Env, s: Session, index: Value): (r: Outcome)
    ensures Posts(env, s, r)
    ensures r.session.stack == (if s.recoveryState < 0 then s.stack[COURSE_SLOT := index] else s.stack)
    ensures !env.onPage(|s.posts|, Parser.CourseId(index)) ==>
              r == Threw(WriteSlot(s, COURSE_SLOT, index), Exception("Tried to open a course with an invalid index"))
    ensures env.onPage(|s.posts|, Parser.CourseId(index)) && Fuel(env, s) > 0 ==>
              |r.session.posts| > |s.posts| && r.session.posts[|s.posts|] == Action(Parser.CourseId(index))
    decreases Fuel(env, s), 1
  {
    var s1 := WriteSlot(s, COURSE_SLOT, index);
    match Parser.CourseIdAtIndex(CurrentPage(env, s1), index)
    case None => Threw(s1, Exception("Tried to open a course with an invalid index"))
    case Some(action) => CatalogPost(env, s1, action, map[])
  }

  /** `show_sections()`, with the button test the code evidently means: it
      POSTs only when the "view class sections" button is on the page. The
      replay and `Perform` use `ShowSectionsAsWritten`, the code as
      written. */
  function ShowSections(env: Env, s: Session): (r: Outcome)
    ensures Advances(env, s, r)
    ensures r.session.stack == s.stack
    ensures !env.onPage(|s.posts|, SHOW_SECTIONS_ID) ==> r == Returned(s)
    ensures env.onPage(|s.posts|, SHOW_SECTIONS_ID) && Fuel(env, s) > 0 ==>
              |r.session.posts| > |s.posts| && r.session.posts[|s.posts|] == Action(SHOW_SECTIONS_ID)
    decreases Fuel(env, s), 1
  {
    if Parser.ValidateId(CurrentPage(env, s), SHOW_SECTIONS_ID).Some? then CatalogPost(env, s, SHOW_SECTIONS_ID, map[])
    else Returned(s)
  }

  /** `switch_to_term(solus_id)`: records the term, then POSTs the term
      button with the term selector field set to the id. */
  function SwitchToTerm(env: Env, s: Session, solusId: Value): (r: Outcome)
    ensures Posts(env, s, r)
    ensures r.session.stack == (if s.recoveryState < 0 then s.stack[TERM_SLOT := solusId] else s.stack)
    ensures Fuel(env, s) > 0 ==>
              |r.session.posts| > |s.posts|
              && r.session.posts[|s.posts|] == map[TERM_FIELD := solusId, ICACTION := PyStr(SWITCH_TERM_ID)]
    decreases Fuel(env, s), 1
  {
    var s1 := WriteSlot(s, TERM_SLOT, solusId);
    CatalogPost(env, s1, SWITCH_TERM_ID, map[TERM_FIELD := solusId])
  }

  /** `visit_section_page(section_index)`. */
  function VisitSectionPage(env: Env, s: Session, index: Value): (r: Outcome)
    ensures Posts(env, s, r)
    ensures r.session.stack == (if s.recoveryState < 0 then s.stack[SECTION_SLOT := index] else s.stack)
    ensures !env.onPage(|s.posts|, Parser.SectionId(index)) ==>
              r == Threw(WriteSlot(s, SECTION_SLOT, index), Exception("Tried to open a section with an invalid index"))
    ensures env.onPage(|s.posts|, Parser.SectionId(index)) && Fuel(env, s) > 0 ==>
              |r.session.posts| > |s.posts| && r.session.posts[|s.posts|] == Action(Parser.SectionId(index))
    decreases Fuel(env, s), 1
  {
    var s1 := WriteSlot(s, SECTION_SLOT, index);
    match Parser.SectionIdAtIndex(CurrentPage(env, s1), index)
    case None => Threw(s1, Exception("Tried to open a section with an invalid index"))
    case Some(action) => CatalogPost(env, s1, action, map[])
  }

  /** `rollup_subject(subject_index)`: clears the subject slot (only while
      not recovering), then POSTs the same subject link to close it. */
  function RollupSubject(env: Env, s: Session, index: Value): (r: Outcome)
    ensures Posts(env, s, r)
    ensures r.session.stack == (if s.recoveryState < 0 then s.stack[SUBJECT_SLOT := PyNone] else s.stack)
    ensures !env.onPage(|s.posts|, Parser.SubjectId(index)) ==>
              r == Threw(WriteSlot(s, SUBJECT_SLOT, PyNone), Exception("Tried to roll up an invalid subject index"))
    ensures env.onPage(|s.posts|, Parser.SubjectId(index)) && Fuel(env, s) > 0 ==>
              |r.session.posts| > |s.posts| && r.session.posts[|s.posts|] == Action(Parser.SubjectId(index))
  {
    var s1 := WriteSlot(s, SUBJECT_SLOT, PyNone);
    match Parser.SubjectIdAtIndex(CurrentPage(env, s1), index)
    case None => Threw(s1, Exception("Tried to roll up an invalid subject index"))
    case Some(action) => CatalogPost(env, s1, action, map[])
  }

  /** `return_from_course()`: clears the course and term slots whether or not
      a replay is running, then POSTs the return button. */
  function ReturnFromCourse(env: Env, s: Session): (r: Outcome)
    ensures Posts(env, s, r)
    ensures r.session.stack == s.stack[TERM_SLOT := PyNone][COURSE_SLOT := PyNone]
    ensures Fuel(env, s) > 0 ==>
              |r.session.posts| > |s.posts| && r.session.posts[|s.posts|] == Action(RETURN_FROM_COURSE_ID)
  {
    var s1 := s.(stack := s.stack[TERM_SLOT := PyNone][COURSE_SLOT := PyNone]);
    CatalogPost(env, s1, RETURN_FROM_COURSE_ID, map[])
  }

  /** `view_all_sections()`, with the button test the code evidently means;
      `Perform` uses `ViewAllSectionsAsWritten`, the code as written. */
  function ViewAllSections(env: Env, s: Session): (r: Outcome)
    ensures Advances(env, s, r)
    ensures r.session.stack == s.stack
    ensures !env.onPage(|s.posts|, VIEW_ALL_ID) ==> r == Returned(s)
    ensures env.onPage(|s.posts|, VIEW_ALL_ID) && Fuel(env, s) > 0 ==>
              |r.session.posts| > |s.posts| && r.session.posts[|s.posts|] == Action(VIEW_ALL_ID)
  {
    if Parser.ValidateId(CurrentPage(env, s), VIEW_ALL_ID).Some? then CatalogPost(env, s, VIEW_ALL_ID, map[])
    else Returned(s)
  }

  /** `return_from_section()`: clears the section slot whether or not a
      replay is running, then POSTs the close button. */
  function ReturnFromSection(env: Env, s: Session): (r: Outcome)
    ensures Posts(env, s, r)
    ensures r.session.stack == s.stack[SECTION_SLOT := PyNone]
    ensures Fuel(env, s) > 0 ==>
              |r.session.posts| > |s.posts| && r.session.posts[|s.posts|] == Action(RETURN_FROM_SECTION_ID)
  {
    var s1 := s.(stack := s.stack[SECTION_SLOT := PyNone]);
    CatalogPost(env, s1, RETURN_FROM_SECTION_ID, map[])
  }

  /** `go_to_course_catalog()`: an empty action, then letter "A". */
  function GoToCourseCatalog(env: Env, s: Session): (r: Outcome)
    ensures Advances(env, s, r)
    ensures r.Returned? && s.recoveryState < 0 ==> r.session.stack == s.stack[LETTER_SLOT := PyStr("A")]
    ensures Fuel(env, s) > 0 ==> |r.session.posts| > |s.posts| && r.session.posts[|s.posts|] == Action("")
    ensures r.Returned? ==> |r.session.posts| >= |s.posts| + 2 && r.session.posts[|r.session.posts| - 1] == Action(ALPHANUM_PREFIX + "A")
  {
    var r1 := CatalogPost(env, s, "", map[]);
    assert Upper("A") == "A";
    assert map[][ICACTION := PyStr("")] == Action("");
    if r1.Returned? then SelectAlphanum(env, r1.session, PyStr("A")) else r1
  }

  /** On a site that answers both POSTs without the error marker, entering
      the catalog sends the empty action and then the action for letter
      "A", and nothing else. */
  lemma CatalogEntryCalm(env: Env, s: Session)
    requires s.recoveryState < 0 && |s.posts| + 2 <= env.maxPosts
    requires !IsErrorPage(env.body(|s.posts| + 1)) && !IsErrorPage(env.body(|s.posts| + 2))
    ensures GoToCourseCatalog(env, s)
         == Returned(s.(posts := s.posts + [Action(""), Action(ALPHANUM_PREFIX + "A")], stack := s.stack[LETTER_SLOT := PyStr("A")]))
  {
    var s1 := s.(posts := s.posts + [Action("")]);
    assert map[][ICACTION := PyStr("")] == Action("");
    assert CatalogPost(env, s, "", map[]) == Returned(s1);
    assert Upper("A") == "A";
    var s2 := WriteSlot(s1, LETTER_SLOT, PyStr("A"));
    assert CatalogPost(env, s2, ALPHANUM_PREFIX + "A", map[]) == Returned(s2.(posts := s1.posts + [Action(ALPHANUM_PREFIX + "A")]));
    assert s1.posts + [Action(ALPHANUM_PREFIX + "A")] == s.posts + [Action(""), Action(ALPHANUM_PREFIX + "A")];
  }

  // ------------------------------------------------------------------
  // Calls as data
  // ------------------------------------------------------------------

  /** A call of one navigation primitive, as the scraper makes them. */
  datatype Call =
    | SelectAlphanumCall(letter: Value)
    | DropdownSubjectCall(subject: Value)
    | RollupSubjectCall(subject: Value)
    | OpenCourseCall(course: Value)
    | ShowSectionsCall
    | ReturnFromCourseCall
    | SwitchToTermCall(term: Value)
    | ViewAllSectionsCall
    | VisitSectionPageCall(section: Value)
    | ReturnFromSectionCall

  /** Making a call: a call that does not raise sends at least one POST
      whenever the site still answers. */
  function Perform(env: Env, s: Session, call: Call): (r: Outcome)
    ensures Posts(env, s, r)
    ensures Fuel(env, s) > 0 && !r.Threw? ==> |r.session.posts| > |s.posts|
  {
    match call
    case SelectAlphanumCall(v) => SelectAlphanum(env, s, v)
    case DropdownSubjectCall(v) => DropdownSubject(env, s, v)
    case RollupSubjectCall(v) => RollupSubject(env, s, v)
    case OpenCourseCall(v) => OpenCourse(env, s, v)
    case ShowSectionsCall => ShowSectionsAsWritten(env, s)
    case ReturnFromCourseCall => ReturnFromCourse(env, s)
    case SwitchToTermCall(v) => SwitchToTerm(env, s, v)
    case ViewAllSectionsCall => ViewAllSectionsAsWritten(env, s)
    case VisitSectionPageCall(v) => VisitSectionPage(env, s, v)
    case ReturnFromSectionCall => ReturnFromSection(env, s)
  }

  /** What a call does to the recovery stack when made outside a replay. */
  function StackEffect(st: Stack, call: Call): Stack {
    match call
    case SelectAlphanumCall(v) => st[LETTER_SLOT := v]
    case DropdownSubjectCall(v) => st[SUBJECT_SLOT := v]
    case RollupSubjectCall(_) => st[SUBJECT_SLOT := PyNone]
    case OpenCourseCall(v) => st[COURSE_SLOT := v]
    case ShowSectionsCall => st
    case ReturnFromCourseCall => st[TERM_SLOT := PyNone][COURSE_SLOT := PyNone]
    case SwitchToTermCall(v) => st[TERM_SLOT := v]
    case ViewAllSectionsCall => st
    case VisitSectionPageCall(v) => st[SECTION_SLOT := v]
    case ReturnFromSectionCall => st[SECTION_SLOT := PyNone]
  }

  /** The stack a call leaves does not depend on how the call ends: the slot
      is written before the POST, an error is recovered without touching the
      stack, and a raise or an exhausted site happens after the write. A
      call made outside a replay that returns leaves the session outside a
      replay, so a walk of calls moves the stack by `StackEffect` alone. */
  lemma PerformStack(env: Env, s: Session, call: Call)
    requires s.recoveryState == -1
    ensures Perform(env, s, call).session.stack == StackEffect(s.stack, call)
    ensures Perform(env, s, call).Returned? ==> Perform(env, s, call).session.recoveryState == -1
  {
  }

  // ------------------------------------------------------------------
  // The button test as written
  // ------------------------------------------------------------------

  /** The tuple `_validate_id` returns: `(link_id, tag)` when the element is
      on the page, `(None, None)` otherwise. The tag stands as its id. */
  function ValidateIdPair(onPage: string -> bool, linkId: string): (t: seq<Value>)
    ensures |t| == 2
    ensures onPage(linkId) <==> t[0] == PyStr(linkId)
    ensures !onPage(linkId) <==> t == [PyNone, PyNone]
  {
    if onPage(linkId) then [PyStr(linkId), PyStr(linkId)] else [PyNone, PyNone]
  }

  /** Python truthiness of a tuple: true exactly when it has elements. */
  predicate TupleTruthy(t: seq<Value>) {
    |t| > 0
  }

  /** `show_sections()` as written: tests the pair itself, which is always
      truthy, so it POSTs whether or not the button is on the page. */
  function ShowSectionsAsWritten(env: Env, s: Session): (r: Outcome)
    ensures Posts(env, s, r)
    ensures r.session.stack == s.stack
    ensures Fuel(env, s) > 0 ==>
              |r.session.posts| > |s.posts| && r.session.posts[|s.posts|] == Action(SHOW_SECTIONS_ID)
    decreases Fuel(env, s), 1
  {
    if TupleTruthy(ValidateIdPair(CurrentPage(env, s), SHOW_SECTIONS_ID)) then CatalogPost(env, s, SHOW_SECTIONS_ID, map[])
    else Returned(s)
  }

  /** `view_all_sections()` as written. */
  function ViewAllSectionsAsWritten(env: Env, s: Session): (r: Outcome)
    ensures Posts(env, s, r)
    ensures r.session.stack == s.stack
    ensures Fuel(env, s) > 0 ==>
              |r.session.posts| > |s.posts| && r.session.posts[|s.posts|] == Action(VIEW_ALL_ID)
  {
    if TupleTruthy(ValidateIdPair(CurrentPage(env, s), VIEW_ALL_ID)) then CatalogPost(env, s, VIEW_ALL_ID, map[])
    else Returned(s)
  }

  /** On a page without the buttons, the code as written still POSTs the
      button actions, while the intended test sends nothing. */
  lemma ButtonTestAlwaysPasses(env: Env, s: Session)
    requires !env.onPage(|s.posts|, SHOW_SECTIONS_ID) && !env.onPage(|s.posts|, VIEW_ALL_ID)
    requires Fuel(env, s) > 0
    ensures ShowSectionsAsWritten(env, s).session.posts[|s.posts|] == Action(SHOW_SECTIONS_ID)
    ensures ViewAllSectionsAsWritten(env, s).session.posts[|s.posts|] == Action(VIEW_ALL_ID)
    ensures ShowSections(env, s) == Returned(s)
    ensures ViewAllSections(env, s) == Returned(s)
  {
  }

  // ------------------------------------------------------------------
  // Replay
  // ------------------------------------------------------------------

  /** From page m on the site behaves: no response after page m carries the
      error marker, and every element the replay looks for is present. */
  ghost predicate Calm(env: Env, m: nat) {
    && (forall k: nat :: k > m ==> !IsErrorPage(env.body(k)))
    && (forall k: nat, id: string :: k >= m ==> env.onPage(k, id))
  }

  /** The POST bodies replaying level k sends on a calm site. */
  function LevelPosts(st: Stack, k: nat): seq<Payload>
    requires 1 <= k <= 5
    requires k == 1 ==> st[LETTER_SLOT].PyStr?
  {
    if k == 1 then [Action(ALPHANUM_PREFIX + Upper(st[LETTER_SLOT].s))]
    else if k == 2 then [Action(Parser.SubjectId(st[SUBJECT_SLOT]))]
    else if k == 3 then [Action(Parser.CourseId(st[COURSE_SLOT])), Action(SHOW_SECTIONS_ID)]
    else if k == 4 then [map[TERM_FIELD := st[TERM_SLOT], ICACTION := PyStr(SWITCH_TERM_ID)]]
    else [Action(Parser.SectionId(st[SECTION_SLOT]))]
  }

  /** The POST bodies replaying levels j+1..n sends on a calm site. */
  function ReplayPosts(st: Stack, j: nat, n: nat): seq<Payload>
    requires n <= 5
    requires n >= 1 ==> st[LETTER_SLOT].PyStr?
    decreases n - j
  {
    if j >= n then [] else LevelPosts(st, j + 1) + ReplayPosts(st, j + 1, n)
  }

  /** Replaying levels j+1..n sends one POST per level and one more for the
      sections button of level 3. */
  lemma {:induction false} ReplayPostsLength(st: Stack, j: nat, n: nat)
    requires j <= n <= 5
    requires n >= 1 ==> st[LETTER_SLOT].PyStr?
    ensures |ReplayPosts(st, j, n)| == (n - j) + (if j < 3 <= n then 1 else 0)
    decreases n - j
  {
    if j < n {
      ReplayPostsLength(st, j + 1, n);
    }
  }

  lemma ReplayLevelCalm(env: Env, s: Session, m: nat)
    requires 1 <= s.recoveryState <= 5
    requires s.recoveryState == 1 ==> s.stack[LETTER_SLOT].PyStr?
    requires Calm(env, m) && m <= |s.posts|
    requires |s.posts| + |LevelPosts(s.stack, s.recoveryState)| <= env.maxPosts
    ensures ReplayLevel(env, s) == Returned(s.(posts := s.posts + LevelPosts(s.stack, s.recoveryState)))
  {
    var k := s.recoveryState;
    var p := |s.posts|;
    assert !IsErrorPage(env.body(p + 1));
    if k == 1 {
      var a := Action(ALPHANUM_PREFIX + Upper(s.stack[LETTER_SLOT].s));
      assert a == map[][ICACTION := PyStr(ALPHANUM_PREFIX + Upper(s.stack[LETTER_SLOT].s))];
      assert ReplayLevel(env, s) == CatalogPost(env, s, ALPHANUM_PREFIX + Upper(s.stack[LETTER_SLOT].s), map[]);
    } else if k == 2 {
      LinkLevelCalm(env, s, Parser.SubjectId(s.stack[SUBJECT_SLOT]), m);
      assert ReplayLevel(env, s) == DropdownSubject(env, s, s.stack[SUBJECT_SLOT]);
    } else if k == 3 {
      CourseLevelCalm(env, s, m);
    } else if k == 4 {
      assert ReplayLevel(env, s) == SwitchToTerm(env, s, s.stack[TERM_SLOT]);
    } else {
      LinkLevelCalm(env, s, Parser.SectionId(s.stack[SECTION_SLOT]), m);
      assert ReplayLevel(env, s) == VisitSectionPage(env, s, s.stack[SECTION_SLOT]);
    }
  }

  /** A link POST on a calm site while replaying: the link is there and the
      response is clean. */
  lemma LinkLevelCalm(env: Env, s: Session, id: string, m: nat)
    requires s.recoveryState >= 0
    requires Calm(env, m) && m <= |s.posts| < env.maxPosts
    ensures env.onPage(|s.posts|, id)
    ensures CatalogPost(env, s, id, map[]) == Returned(s.(posts := s.posts + [Action(id)]))
  {
    assert !IsErrorPage(env.body(|s.posts| + 1));
    assert Action(id) == map[][ICACTION := PyStr(id)];
  }

  /** A POST whose response is clean returns with just that POST added. */
  lemma CleanPost(env: Env, s: Session, id: string)
    requires |s.posts| < env.maxPosts && !IsErrorPage(env.body(|s.posts| + 1))
    ensures CatalogPost(env, s, id, map[]) == Returned(s.(posts := s.posts + [Action(id)]))
  {
    assert Action(id) == map[][ICACTION := PyStr(id)];
  }

  /** Level 3 on a calm site: the course link, then the sections button. */
  lemma CourseLevelCalm(env: Env, s: Session, m: nat)
    requires s.recoveryState == 3
    requires Calm(env, m) && m <= |s.posts| && |s.posts| + 2 <= env.maxPosts
    ensures ReplayLevel(env, s) == Returned(s.(posts := s.posts + LevelPosts(s.stack, 3)))
  {
    var id := Parser.CourseId(s.stack[COURSE_SLOT]);
    LinkLevelCalm(env, s, id, m);
    var s1 := s.(posts := s.posts + [Action(id)]);
    assert OpenCourse(env, s, s.stack[COURSE_SLOT]) == Returned(s1);
    LinkLevelCalm(env, s1, SHOW_SECTIONS_ID, m);
    assert ShowSectionsAsWritten(env, s1) == Returned(s1.(posts := s1.posts + [Action(SHOW_SECTIONS_ID)]));
    assert s1.posts + [Action(SHOW_SECTIONS_ID)] == s.posts + LevelPosts(s.stack, 3);
  }

  /** Level 3 presses the sections button even on a course page without
      it, since the button test as written always passes. */
  lemma CourseLevelWithoutButton(env: Env, s: Session)
    requires s.recoveryState == 3
    requires var p := |s.posts|;
             && env.onPage(p, Parser.CourseId(s.stack[COURSE_SLOT]))
             && !env.onPage(p + 1, SHOW_SECTIONS_ID)
             && !IsErrorPage(env.body(p + 1)) && !IsErrorPage(env.body(p + 2))
             && p + 2 <= env.maxPosts
    ensures ReplayLevel(env, s)
            == Returned(s.(posts := s.posts + [Action(Parser.CourseId(s.stack[COURSE_SLOT])), Action(SHOW_SECTIONS_ID)]))
  {
    var id := Parser.CourseId(s.stack[COURSE_SLOT]);
    var s1 := s.(posts := s.posts + [Action(id)]);
    CleanPost(env, s, id);
    assert Parser.CourseIdAtIndex(CurrentPage(env, s), s.stack[COURSE_SLOT]) == Some(id);
    assert OpenCourse(env, s, s.stack[COURSE_SLOT]) == Returned(s1);
    CleanPost(env, s1, SHOW_SECTIONS_ID);
    assert ShowSectionsAsWritten(env, s1) == Returned(s1.(posts := s1.posts + [Action(SHOW_SECTIONS_ID)]));
    assert s1.posts + [Action(SHOW_SECTIONS_ID)] == s.posts + [Action(id), Action(SHOW_SECTIONS_ID)];
  }

  /** On a calm site the replay loop runs levels rs+1..n once each, in
      order, and ends with the cursor at n. */
  lemma {:induction false} ReplayLoopCalm(env: Env, s: Session, n: nat, m: nat)
    requires 0 <= s.recoveryState <= n <= 5
    requires n >= 1 ==> s.stack[LETTER_SLOT].PyStr?
    requires Calm(env, m) && m <= |s.posts|
    requires |s.posts| + |ReplayPosts(s.stack, s.recoveryState, n)| <= env.maxPosts
    ensures ReplayLoop(env, s, n)
            == Returned(s.(posts := s.posts + ReplayPosts(s.stack, s.recoveryState, n), recoveryState := n))
    decreases n - s.recoveryState
  {
    var j := s.recoveryState;
    if j < n {
      var s2 := s.(posts := s.posts + LevelPosts(s.stack, j + 1), recoveryState := j + 1);
      LoopCalmStep(env, s, n, m);
      ReplayLoopCalm(env, s2, n, m);
      LoopCalmJoin(env, s, n);
    } else {
      assert s.posts + ReplayPosts(s.stack, j, n) == s.posts;
    }
  }

  /** The replay after one calm level, joined to that level's posts. */
  lemma LoopCalmJoin(env: Env, s: Session, n: nat)
    requires 0 <= s.recoveryState < n <= 5
    requires s.stack[LETTER_SLOT].PyStr?
    requires var j := s.recoveryState;
             && ReplayPosts(s.stack, j, n) == LevelPosts(s.stack, j + 1) + ReplayPosts(s.stack, j + 1, n)
             && ReplayLoop(env, s, n)
                == ReplayLoop(env, s.(posts := s.posts + LevelPosts(s.stack, j + 1), recoveryState := j + 1), n)
    requires var j := s.recoveryState;
             var s2 := s.(posts := s.posts + LevelPosts(s.stack, j + 1), recoveryState := j + 1);
             ReplayLoop(env, s2, n) == Returned(s2.(posts := s2.posts + ReplayPosts(s.stack, j + 1, n), recoveryState := n))
    ensures ReplayLoop(env, s, n)
            == Returned(s.(posts := s.posts + ReplayPosts(s.stack, s.recoveryState, n), recoveryState := n))
  {
    AppendAssoc(s.posts, LevelPosts(s.stack, s.recoveryState + 1), ReplayPosts(s.stack, s.recoveryState + 1, n));
  }

  /** One calm turn of the replay loop: level j+1 is replayed cleanly. */
  lemma LoopCalmStep(env: Env, s: Session, n: nat, m: nat)
    requires 0 <= s.recoveryState < n <= 5
    requires s.stack[LETTER_SLOT].PyStr?
    requires Calm(env, m) && m <= |s.posts|
    requires |s.posts| + |ReplayPosts(s.stack, s.recoveryState, n)| <= env.maxPosts
    ensures ReplayPosts(s.stack, s.recoveryState, n)
            == LevelPosts(s.stack, s.recoveryState + 1) + ReplayPosts(s.stack, s.recoveryState + 1, n)
    ensures ReplayLoop(env, s, n)
            == ReplayLoop(env, s.(posts := s.posts + LevelPosts(s.stack, s.recoveryState + 1), recoveryState := s.recoveryState + 1), n)
  {
    var s1 := s.(recoveryState := s.recoveryState + 1);
    ReplayLevelCalm(env, s1, m);
    LoopStep(env, s, n);
  }

  /** `_recover` on a calm site, outside a replay: it replays every level
      the stack records, then re-posts the original body, and leaves the
      session not recovering with the stack it had. */
  lemma RecoverCalm(env: Env, s: Session, action: string, extras: Payload, m: nat)
    requires s.recoveryState < 0
    requires ReplayDepth(s.stack) >= 1 ==> s.stack[LETTER_SLOT].PyStr?
    requires Calm(env, m) && m <= |s.posts|
    requires |s.posts| + |ReplayPosts(s.stack, 0, ReplayDepth(s.stack))| + 1 <= env.maxPosts
    ensures Recover(env, s, action, extras)
            == Returned(Session(-1, s.stack,
                                s.posts + ReplayPosts(s.stack, 0, ReplayDepth(s.stack)) + [extras[ICACTION := PyStr(action)]]))
  {
    var n := ReplayDepth(s.stack);
    ReplayLoopCalm(env, s.(recoveryState := 0), n, m);
  }

  /** The recovery protocol: a POST whose response reports a data integrity
      error, on a site that is calm afterwards, ends as if the error never
      happened. The session returns not recovering, with the stack it had,
      after sending the original body, the replay of every recorded level
      and the original body again. */
  lemma CatalogPostRecovers(env: Env, s: Session, action: string, extras: Payload)
    requires s.recoveryState < 0
    requires ReplayDepth(s.stack) >= 1 ==> s.stack[LETTER_SLOT].PyStr?
    requires IsErrorPage(env.body(|s.posts| + 1))
    requires Calm(env, |s.posts| + 1)
    requires |s.posts| + |ReplayPosts(s.stack, 0, ReplayDepth(s.stack))| + 2 <= env.maxPosts
    ensures var p := extras[ICACTION := PyStr(action)];
            CatalogPost(env, s, action, extras)
            == Returned(Session(-1, s.stack, s.posts + [p] + ReplayPosts(s.stack, 0, ReplayDepth(s.stack)) + [p]))
  {
    var s1 := s.(posts := s.posts + [extras[ICACTION := PyStr(action)]]);
    RecoverCalm(env, s1, action, extras, |s.posts| + 1);
  }

  /** An error on the course link while inside subject 1 of letter A: the
      course index is recorded before the POST, so the replay re-selects the
      letter and the subject, re-opens the course and presses the sections
      button, and then re-posts the course link. */
  lemma CourseErrorReplay(env: Env, s: Session)
    requires s.recoveryState == -1
    requires s.stack == [PyStr("A"), PyInt(1), PyNone, PyNone, PyNone]
    requires env.onPage(|s.posts|, Parser.CourseId(PyInt(2)))
    requires IsErrorPage(env.body(|s.posts| + 1))
    requires Calm(env, |s.posts| + 1)
    requires |s.posts| + 6 <= env.maxPosts
    ensures OpenCourse(env, s, PyInt(2))
            == Returned(Session(-1, [PyStr("A"), PyInt(1), PyInt(2), PyNone, PyNone],
                                s.posts + [Action(Parser.CourseId(PyInt(2))),
                                           Action(ALPHANUM_PREFIX + "A"),
                                           Action(Parser.SubjectId(PyInt(1))),
                                           Action(Parser.CourseId(PyInt(2))),
                                           Action(SHOW_SECTIONS_ID),
                                           Action(Parser.CourseId(PyInt(2)))]))
  {
    var id := Parser.CourseId(PyInt(2));
    var s1 := WriteSlot(s, COURSE_SLOT, PyInt(2));
    assert s1.stack == [PyStr("A"), PyInt(1), PyInt(2), PyNone, PyNone];
    CourseErrorRetried(env, s1);
    assert OpenCourse(env, s, PyInt(2)) == CatalogPost(env, s1, id, map[]) by {
      assert Parser.CourseIdAtIndex(CurrentPage(env, s1), PyInt(2)) == Some(id);
    }
  }

  /** The course POST of `CourseErrorReplay`, once its slot is written. */
  lemma CourseErrorRetried(env: Env, s1: Session)
    requires s1.recoveryState == -1
    requires s1.stack == [PyStr("A"), PyInt(1), PyInt(2), PyNone, PyNone]
    requires IsErrorPage(env.body(|s1.posts| + 1))
    requires Calm(env, |s1.posts| + 1)
    requires |s1.posts| + 6 <= env.maxPosts
    ensures var id := Action(Parser.CourseId(PyInt(2)));
            CatalogPost(env, s1, Parser.CourseId(PyInt(2)), map[])
            == Returned(Session(-1, s1.stack,
                                s1.posts + [id, Action(ALPHANUM_PREFIX + "A"), Action(Parser.SubjectId(PyInt(1))),
                                            id, Action(SHOW_SECTIONS_ID), id]))
  {
    var id := Parser.CourseId(PyInt(2));
    assert ReplayDepth(s1.stack) == 3;
    CourseReplayPosts(s1.stack);
    var replay := ReplayPosts(s1.stack, 0, ReplayDepth(s1.stack));
    CatalogPostRecovers(env, s1, id, map[]);
    assert Action(id) == map[][ICACTION := PyStr(id)];
    Bracketed(s1.posts, Action(id), replay);
  }

  /** A log extended by a post, four replayed posts and the post again. */
  lemma Bracketed<T>(log: seq<T>, p: T, replay: seq<T>)
    requires |replay| == 4
    ensures log + [p] + replay + [p] == log + [p, replay[0], replay[1], replay[2], replay[3], p]
  {
    assert replay == [replay[0], replay[1], replay[2], replay[3]];
  }

  /** The replay of letter "A", subject 1 and course 2. */
  lemma CourseReplayPosts(st: Stack)
    requires st == [PyStr("A"), PyInt(1), PyInt(2), PyNone, PyNone]
    ensures ReplayPosts(st, 0, 3)
            == [Action(ALPHANUM_PREFIX + "A"), Action(Parser.SubjectId(PyInt(1))),
                Action(Parser.CourseId(PyInt(2))), Action(SHOW_SECTIONS_ID)]
  {
    assert Upper("A") == "A";
    assert ReplayPosts(st, 3, 3) == [];
    assert ReplayPosts(st, 2, 3) == LevelPosts(st, 3);
    assert ReplayPosts(st, 1, 3) == LevelPosts(st, 2) + LevelPosts(st, 3);
  }

  /** An error during a replay restarts the replay at the letter: the
      nested recovery only rewinds the cursor, and the loop of the outer
      recovery runs every level again before the original POST is re-sent. */
  lemma NestedErrorRestartsReplay(env: Env, s: Session, action: string)
    requires s.recoveryState == -1
    requires s.stack == [PyStr("A"), PyInt(1), PyNone, PyNone, PyNone]
    requires var p := |s.posts|;
             && IsErrorPage(env.body(p + 1))
             && !IsErrorPage(env.body(p + 2)) && env.onPage(p + 2, Parser.SubjectId(PyInt(1)))
             && IsErrorPage(env.body(p + 3))
             && Calm(env, p + 3)
             && p + 6 <= env.maxPosts
    ensures CatalogPost(env, s, action, map[])
            == Returned(Session(-1, s.stack,
                                s.posts + [Action(action),
                                           Action(ALPHANUM_PREFIX + "A"), Action(Parser.SubjectId(PyInt(1))),
                                           Action(ALPHANUM_PREFIX + "A"), Action(Parser.SubjectId(PyInt(1))),
                                           Action(action)]))
  {
    var letter := Action(ALPHANUM_PREFIX + "A");
    var subject := Action(Parser.SubjectId(PyInt(1)));
    var s0 := s.(posts := s.posts + [Action(action)]);
    var s4 := s0.(recoveryState := 2, posts := s0.posts + [letter, subject, letter, subject]);
    assert CatalogPost(env, s, action, map[]) == Recover(env, s0, action, map[]) by {
      assert Action(action) == map[][ICACTION := PyStr(action)];
    }
    assert Recover(env, s0, action, map[]) == RetryLast(env, s4, action, map[]) by {
      assert ReplayDepth(s.stack) == 2;
      NestedReplay(env, s0.(recoveryState := 0));
    }
    assert RetryLast(env, s4, action, map[]) == Returned(s4.(recoveryState := -1, posts := s4.posts + [Action(action)])) by {
      assert Action(action) == map[][ICACTION := PyStr(action)];
    }
  }

  /** The replay loop of `NestedErrorRestartsReplay`: an interrupted pass,
      then a full pass over both levels. */
  lemma NestedReplay(env: Env, s1: Session)
    requires s1.recoveryState == 0
    requires s1.stack == [PyStr("A"), PyInt(1), PyNone, PyNone, PyNone]
    requires var p := |s1.posts|;
             && !IsErrorPage(env.body(p + 1)) && env.onPage(p + 1, Parser.SubjectId(PyInt(1)))
             && IsErrorPage(env.body(p + 2))
             && Calm(env, p + 2)
             && p + 4 <= env.maxPosts
    ensures var letter := Action(ALPHANUM_PREFIX + "A");
            var subject := Action(Parser.SubjectId(PyInt(1)));
            ReplayLoop(env, s1, 2) == Returned(s1.(recoveryState := 2, posts := s1.posts + [letter, subject, letter, subject]))
  {
    var letter := Action(ALPHANUM_PREFIX + "A");
    var subject := Action(Parser.SubjectId(PyInt(1)));
    var s3 := s1.(posts := s1.posts + [letter, subject]);
    InterruptedReplay(env, s1);
    assert ReplayPosts(s1.stack, 0, 2) == [letter, subject] by {
      assert Upper("A") == "A";
    }
    ReplayLoopCalm(env, s3, 2, |s1.posts| + 2);
    assert s3.posts + [letter, subject] == s1.posts + [letter, subject, letter, subject];
  }

  /** The first pass of the replay in `NestedErrorRestartsReplay`: the
      letter is re-selected, the subject POST meets the error, and the loop
      is back at cursor 0. */
  lemma InterruptedReplay(env: Env, s1: Session)
    requires s1.recoveryState == 0
    requires s1.stack == [PyStr("A"), PyInt(1), PyNone, PyNone, PyNone]
    requires var p := |s1.posts|;
             && !IsErrorPage(env.body(p + 1)) && env.onPage(p + 1, Parser.SubjectId(PyInt(1)))
             && IsErrorPage(env.body(p + 2))
             && p + 2 <= env.maxPosts
    ensures ReplayLoop(env, s1, 2)
            == ReplayLoop(env, s1.(posts := s1.posts + [Action(ALPHANUM_PREFIX + "A"), Action(Parser.SubjectId(PyInt(1)))]), 2)
  {
    var letter := Action(ALPHANUM_PREFIX + "A");
    var subject := Action(Parser.SubjectId(PyInt(1)));
    var s2 := s1.(recoveryState := 1, posts := s1.posts + [letter]);
    var s3 := s2.(recoveryState := 0, posts := s2.posts + [subject]);
    LetterLevelCalm(env, s1.(recoveryState := 1));
    LoopAfterLevel(env, s1, 2, s2);
    SubjectLevelFails(env, s2.(recoveryState := 2));
    LoopAfterLevel(env, s2, 2, s3);
    assert s3 == s1.(posts := s1.posts + [letter, subject]);
  }

  /** One turn of the replay loop. */
  lemma LoopStep(env: Env, s: Session, n: nat)
    requires 0 <= s.recoveryState < n <= 5
    ensures var r1 := ReplayLevel(env, s.(recoveryState := s.recoveryState + 1));
            ReplayLoop(env, s, n) == if r1.Returned? then ReplayLoop(env, r1.session, n) else r1
  {
  }

  /** A turn of the loop whose level returns continues from where the
      level left the session. */
  lemma LoopAfterLevel(env: Env, s: Session, n: nat, s': Session)
    requires 0 <= s.recoveryState < n <= 5
    requires ReplayLevel(env, s.(recoveryState := s.recoveryState + 1)) == Returned(s')
    ensures ReplayLoop(env, s, n) == ReplayLoop(env, s', n)
  {
    LoopStep(env, s, n);
  }

  lemma LetterLevelCalm(env: Env, s: Session)
    requires s.recoveryState == 1 && s.stack[LETTER_SLOT] == PyStr("A")
    requires !IsErrorPage(env.body(|s.posts| + 1)) && |s.posts| < env.maxPosts
    ensures ReplayLevel(env, s) == Returned(s.(posts := s.posts + [Action(ALPHANUM_PREFIX + "A")]))
  {
    assert Upper("A") == "A";
    assert CatalogPost(env, s, ALPHANUM_PREFIX + "A", map[]) == Returned(s.(posts := s.posts + [Action(ALPHANUM_PREFIX + "A")]));
  }

  lemma SubjectLevelFails(env: Env, s: Session)
    requires s.recoveryState == 2 && s.stack[SUBJECT_SLOT] == PyInt(1)
    requires env.onPage(|s.posts|, Parser.SubjectId(PyInt(1)))
    requires IsErrorPage(env.body(|s.posts| + 1)) && |s.posts| < env.maxPosts
    ensures ReplayLevel(env, s) == Returned(s.(posts := s.posts + [Action(Parser.SubjectId(PyInt(1)))], recoveryState := 0))
  {
    var id := Parser.SubjectId(PyInt(1));
    assert Parser.SubjectIdAtIndex(CurrentPage(env, s), PyInt(1)) == Some(id);
    assert DropdownSubject(env, s, PyInt(1)) == CatalogPost(env, s, id, map[]);
  }
}
