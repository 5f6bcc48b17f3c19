# qcumber-scraper core in Dafny

This project models the core of qcumber-scraper, a Python 2 scraper for the
SOLUS course catalog at Queen's University and for the campus bookstore's
textbook lists. It models the parts of the scraper that make decisions and
proves properties about them:

- **Navigation session** (`navigation.py`, module `Navigation`).
  - A five-slot recovery stack records the path to the current page: letter, subject, course, term, section.
  - Every catalog POST is checked for the "Data Integrity Error" page.
  - On an error, the session re-plays the recorded path, then retries the action.
  - The remote site is an oracle: page text and element presence are given per POST.
  - A bound on the number of POSTs the site answers makes the retry recursion total.
- **Job split** (`main.py`, module `Jobs`).
  - `ScrapeJob` defaults and the thread-count clamp.
  - The static split of a job into one sub-job per letter and thread slot.
  - The subject indices each sub-job visits.
- **Traversal** (`scraper.py`, module `Scraper`).
  - A scrape is a trace of navigation calls and record writes over an abstract catalog tree.
  - The `Walk` module composes that trace with the stack discipline of the session.
- **Page parser** (`parser.py`).
  - Modules `Parser`, `CourseAttrs`, `Meetings` and `SectionAttrs`.
  - They cover element ids by index, text cleaning, subject and term text, the course-detail and CEAB boxes, the meeting rows of a section and the section page's detail and availability boxes.
  - The parsed HTML is given as sequences of cell texts: `None` marks a cell whose `.string` is None.
- **Textbooks** (`textbooks.py`, module `Textbooks`).
  - Availability counts and prices read from span texts.
  - The per-field rules of the textbook record and the write condition with its file key.
  - The 2-digit slot ids and the course-link filter of the booklist page.

Python's behaviour is modelled explicitly:
- Exceptions are `Py.Result` values.
- Two of the exception kinds come from Python 2 itself: `NameError`, because parser.py calls `logging` without importing it, and `UnicodeEncodeError`, because a byte-string `str.format` template encodes `unicode` arguments as ASCII.
- `Py.Value` stands for Python values with Python truthiness.
- `Text` holds the string functions.

Python 2 regex classes `\s`, `\d` and `\D` are ASCII, while `unicode.strip` strips Unicode whitespace (the cell texts are `unicode` strings).

Two behaviours of the code are kept exactly as written and proved as such:
- **Replay depth.** The replay depth counts only truthy slots. A slot holding index 0 is not counted, so inside subject 0 or course 0 a recovery replays fewer levels (`Navigation.ZeroIndexShortensReplay`).
- **Course-link filter.** The booklist filter tests the second character of the subject text against the configured letters (`Textbooks.SecondCharacterExample`).

The navigation calls keep the button test of `show_sections` and `view_all_sections` as written, which always posts (see Findings); the replay of the course level and `Navigation.Perform` use these as-written calls.

`open_course` records its slot before it posts, so an error on the course POST replays the course level too, before the retry (`Navigation.CourseErrorReplay`).

## Model

| member | source | states |
|---|---|---|
| Navigation.Fresh | navigation.py:48-49 | a new session is not recovering, has all five recovery slots empty and has posted nothing |
| Navigation.WriteSlot | navigation.py:123-128 | writing a recovery slot never changes the posts or the recovery cursor |
| Navigation.ReplayDepth | navigation.py:257 | the replay depth never exceeds the number of filled slots, and equals it exactly when every filled slot is truthy |
| Navigation.ZeroIndexShortensReplay | navigation.py:257 | at depth 3 with subject 0 and course 0 only the letter is counted, so the replay depth is 1; with non-zero indices it is 3 |
| Navigation.CatalogPost | navigation.py:232-240 | the action is posted with the extras and leaves the stack alone; a clean page returns; an error page while recovering returns without recovering; an error page otherwise starts a recovery; a call that returns has posted its payload last |
| Navigation.Recover | navigation.py:247-290 | a nested recovery only resets the cursor to 0; otherwise a successful recovery ends not recovering, having posted the original action last, with the stack unchanged |
| Navigation.RetryLast | navigation.py:286-290 | the final retry ends not recovering, with the original action as the last post, posts only appended |
| Navigation.ReplayLoop | navigation.py:263-284 | the replay keeps the stack, never ends with the cursor negative, and a completed replay leaves the cursor at or past the level it was asked to reach |
| Navigation.ReplayLevel | navigation.py:265-284 | replaying one level only posts, and keeps the stack; level 3 presses the sections button with the button test as written |
| Navigation.SelectAlphanum | navigation.py:123-128 | outside a recovery the letter slot takes the letter; a non-string letter raises AttributeError after that write; otherwise the post is the upper-cased alphanum action, and a call that returns has posted it last |
| Navigation.DropdownSubject | navigation.py:132-141 | slot 1 takes the index outside a recovery; an index whose link is absent raises the "invalid subject index" exception; otherwise the subject link is posted |
| Navigation.OpenCourse | navigation.py:156-165 | slot 2 takes the index outside a recovery; an absent course link raises the "invalid index" exception; otherwise the course link is posted |
| Navigation.ShowSections | navigation.py:175-180 | corrected: with no show-sections button on the page nothing is posted; with one the button action is posted; the stack is kept |
| Navigation.SwitchToTerm | navigation.py:182-186 | slot 3 takes the term id outside a recovery; the post carries the term field and the switch-term action |
| Navigation.ViewAllSections | navigation.py:188-191 | corrected: with no view-all button nothing is posted; with one its action is posted; the stack is kept |
| Navigation.VisitSectionPage | navigation.py:193-205 | slot 4 takes the index outside a recovery; an absent section link raises the "invalid index" exception; otherwise the section link is posted |
| Navigation.RollupSubject | navigation.py:143-152 | slot 1 is cleared outside a recovery; an absent subject link raises the "roll up" exception; otherwise the subject link is posted |
| Navigation.ReturnFromCourse | navigation.py:167-171 | the term and course slots are cleared even during a recovery, and the return action is posted |
| Navigation.ReturnFromSection | navigation.py:207-213 | the section slot is cleared, and the return action is posted |
| Navigation.GoToCourseCatalog | navigation.py:117-119 | the first post is the empty action; a call that returns has posted at least twice and last the alphanum action for "A"; outside a recovery it leaves letter "A" in slot 0 |
| Navigation.CatalogEntryCalm | navigation.py:117-119 | when neither response carries the error marker, the call sends exactly the empty action and then the action for "A", and records "A" in slot 0 |
| Navigation.Perform | navigation.py:123-213 | each navigation call, with the button tests as written, only appends posts and spends site budget, and one that does not raise posts at least once while the site answers |
| Navigation.PerformStack | navigation.py:123-213 | outside a recovery every navigation call moves the stack by its documented effect whatever its outcome, and a returning call leaves the session not recovering |
| Navigation.ValidateIdPair | parser.py:51-60 | the lookup is always a pair: the id and its tag when the element is on the page, `(None, None)` otherwise |
| Navigation.ShowSectionsAsWritten | navigation.py:175-180 | as written: whether or not the button is on the page, the show-sections action is posted, and the stack is kept |
| Navigation.ViewAllSectionsAsWritten | navigation.py:188-191 | as written: whether or not the button is on the page, the view-all action is posted, and the stack is kept |
| Navigation.ButtonTestAlwaysPasses | navigation.py:175-191 | with neither button on the page the as-written calls still post both actions, while the corrected calls return without posting |
| Navigation.ReplayLevelCalm | navigation.py:265-284 | on a site without error pages, replaying level k posts exactly that level's actions |
| Navigation.CourseLevelCalm | navigation.py:276-278 | replaying the course level posts the course link and then the sections button action |
| Navigation.CourseLevelWithoutButton | navigation.py:276-278 | replaying the course level on a page without the sections button still posts the course link and then the button action, two POSTs |
| Navigation.ReplayLoopCalm | navigation.py:263-284 | on a site without error pages, the replay posts the levels from the cursor up to the depth, in order, and leaves the cursor at the depth |
| Navigation.RecoverCalm | navigation.py:247-290 | on a site without error pages, a recovery posts the replay of every counted level and then the original action, and ends not recovering |
| Navigation.CatalogPostRecovers | navigation.py:232-240 | an error page after a post triggers exactly one replay of the recorded path followed by a retry of the same payload |
| Navigation.CourseErrorReplay | navigation.py:156-165 | an error on opening course 2 in subject 1 of "A" replays letter, subject and course, then posts the course link again |
| Navigation.NestedErrorRestartsReplay | navigation.py:247-290 | an error during the replay of the subject level restarts the replay from the letter before the retry |
| Navigation.NestedReplay | navigation.py:251-254 | a nested error resets the cursor to 0, and the loop replays from the first level again |
| Navigation.InterruptedReplay | navigation.py:263-284 | a replay interrupted at the subject level continues as a fresh replay from cursor 0 |
| Navigation.LetterLevelCalm | navigation.py:268-271 | replaying the letter level posts the letter's alphanum action |
| Navigation.SubjectLevelFails | navigation.py:251-254 | an error page while replaying the subject level resets the cursor to 0 |
| Jobs.FillDefaults | main.py:24-34 | every key given keeps its value and every missing key gets its own default, independently of the other keys: deep, the 26 letters, starts 0, step 1, no ends |
| Jobs.FillDefaultsIdempotent | main.py:24-34 | building a job from a complete job changes nothing |
| Jobs.ClampThreads | main.py:49 | the thread count lies in 1..10; values inside are kept, values outside are clamped, and a missing count gives 5 |
| Jobs.ThreadsPerLetter | main.py:66 | no letters raises ZeroDivisionError; otherwise at least one thread per letter |
| Jobs.ThreadsPerLetterIsCeiling | main.py:66 | the threads per letter are the ceiling of threads over letters |
| Jobs.BaseJob | main.py:50-64 | a missing job is the default job; a plain dict with no letters raises KeyError |
| Jobs.SplitLetters | main.py:68-76 | one sub-job per letter and slot, in queue order |
| Jobs.MakeJobs | main.py:60-76 | letters times threads-per-letter sub-jobs, the one at each queue position being the given letter with subject start s and step threads-per-letter |
| Jobs.SlotsPartitionIndices | main.py:68-76 | for each letter, every subject index is admitted by exactly one of its sub-jobs |
| Jobs.SubJobsPartition | main.py:71-74 | the sub-job whose start is the index modulo the step admits the index, and no other slot does |
| Jobs.TwoLettersFourThreads | main.py:60-76 | two letters with four threads give four shallow jobs: two per letter, with starts 0 and 1 and step 2 |
| Scraper.Pick | scraper.py:39-47 | the indices visited are exactly those below the count and the end that lie on the start/step grid, in increasing order |
| Scraper.Start | scraper.py:14-23 | with no failure the trace is the full scrape; a failure at step k keeps the first k events, dumps the page once and re-raises |
| Scraper.ShallowVisitsNoSection | scraper.py:112-120 | a shallow job never visits a section page |
| Scraper.LettersInOrder | scraper.py:25-33 | the letters are selected in job order, once each, and the first event selects the first letter |
| Scraper.SectionsWrittenOnce | scraper.py:98-130 | each section of a term is written once, in page order, tagged with course number, subject, year and season, with its deep parts merged exactly on a deep scrape |
| Scraper.VisitsInOrder | scraper.py:112-120 | a deep scrape visits each section, merges its deep data and returns, in order |
| Scraper.FailureDumpsOnce | scraper.py:19-23 | a failure at step k gives the k events before it, one page dump, and the failure |
| Scraper.PickedSubjects | scraper.py:39-47 | with no subject end, a subject is visited iff it is on the page and the job admits it |
| Scraper.SubJobsPickEachSubjectOnce | main.py:68-76 | across the sub-jobs of a letter, each subject on the page is visited by exactly one sub-job |
| Walk.LetterEventsWalk | scraper.py:25-33 | along the whole scrape every write happens at the depth of its record and the stack names a gap-free path from the letter |
| Walk.ScrapeKeepsStackInPlace | scraper.py:25-130 | from a fresh session the recovery stack always describes the current position of the traversal |
| Walk.ReplayDepthOfPosition | navigation.py:257 | on a gap-free stack with truthy slots the replay depth is the navigation depth |
| Walk.SectionEventsWalk | scraper.py:98-130 | the section block returns the stack to the term's page |
| Walk.CourseBlockWalk | scraper.py:70-84 | a course block fills and clears its own slots, returning to the subject's page |
| Walk.SubjectBlockWalk | scraper.py:47-57 | a subject block returns to the letter's page |
| Parser.ValidateId | parser.py:51-60 | the id is returned exactly when an element with it is on the page |
| Parser.SubjectIdAtIndex | parser.py:62-74 | the subject id is the subject link prefix followed by the index, and is present iff on the page |
| Parser.CourseIdAtIndex | parser.py:76-85 | the course id is the course link prefix followed by the index, and is present iff on the page |
| Parser.SectionIdAtIndex | parser.py:87-99 | the section id is the section link prefix followed by the index, and is present iff on the page |
| Parser.IdsEncodeIndex | parser.py:62-99 | the index can be read back from each id |
| Parser.IdsInjective | parser.py:62-99 | distinct indices give distinct ids |
| Parser.Clean | parser.py:123-124 | cleaned text has no leading or trailing whitespace |
| Parser.CleanOfPieces | parser.py:123-124 | every `&nbsp;` becomes exactly one space: pieces without '&' joined by the entity clean to the same pieces joined by spaces, then stripped |
| Parser.CleanNbspBetween | parser.py:123-124 | one `&nbsp;` between two pieces without '&' becomes one space |
| Parser.CleanRemovesNbsp | parser.py:123-124 | cleaned text contains no `&nbsp;` |
| Parser.CleanIdempotent | parser.py:123-124 | cleaning twice is cleaning once |
| Parser.SplitSubject | parser.py:140-148 | a matched subject text is the abbreviation, " - " and the title, with at most one trailing newline |
| Parser.SplitSubjectOfText | parser.py:140-148 | the abbreviation and title are read back from their joined text |
| Parser.SubjectAtIndex | parser.py:128-148 | corrected version (see Findings): a subject is found iff its link is on the page and its cleaned text reads "ABBR - Title", with the first '-' inside " - " and the title on one line; the abbreviation has no '-' and its action is the link id |
| Parser.SubjectAtIndexAsWritten | parser.py:128-148 | as written: raises NameError exactly when the link is on the page and its cleaned text does not read "ABBR - Title"; in every other case it returns what the corrected version returns |
| Parser.SubjectWithoutDashRaises | parser.py:140-143 | a subject link whose text has no '-' raises NameError as written, where the corrected version finds no subject |
| Parser.ParseTerm | parser.py:324 | a matched term text is a non-blank year, one space and a season without newlines |
| Parser.ParseTermOfText | parser.py:324 | year and season are read back from their joined text |
| Parser.AllTerms | parser.py:310-328 | no dropdown gives no terms; otherwise it succeeds iff no option raises, the only exceptions are TypeError and KeyError, and there is at most one term per option |
| Parser.AllTermsFirstError | parser.py:323-326 | the first failing option decides the exception: TypeError without text, KeyError for a matching option without a value |
| Parser.OptionTerms | parser.py:323-326 | an option without text raises TypeError; a matching option without a value raises KeyError; otherwise it contributes a term iff its text matches, carrying its value as the term id and the matched year and season |
| Parser.TermsOf | parser.py:323-326 | the option loop raises only TypeError or KeyError, and gives at most one term per option |
| Parser.TermsOfSucceeds | parser.py:323-326 | the option loop succeeds iff every option succeeds |
| Parser.TermsOfFirstError | parser.py:323-326 | the loop raises the exception of its first failing option, whatever follows it |
| Parser.TermsOfAppend | parser.py:323-326 | the terms of two runs of options are the terms of each, in order |
| Parser.TermsOfOne | parser.py:323-326 | a single matching option gives its term, or KeyError without a value; a non-matching one gives nothing |
| CourseAttrs.Ceab | parser.py:286-301 | corrected: succeeds iff there are at least as many cells as labels, stores every truthy label without its last character, keeps other keys, and stores 0 for an empty cell |
| CourseAttrs.CeabKeys | parser.py:299-301 | every key of the result was already there or comes from a truthy label |
| CourseAttrs.CeabValue | parser.py:291-301 | the value under the last label with a key is its cell's integer, or 0 when it does not parse |
| CourseAttrs.CeabKeepsOthers | parser.py:291-301 | keys no label names keep their value |
| CourseAttrs.CeabAsWritten | parser.py:291-301 | as written: the loop can raise only IndexError, for a missing cell, or AttributeError, which the `except` does not catch |
| CourseAttrs.CeabAsWrittenSucceeds | parser.py:291-301 | as written: the loop succeeds iff every label has a cell and every such cell has text, so one cell whose text is None stops it |
| CourseAttrs.CeabAgrees | parser.py:291-301 | on pages with no empty cells the written and corrected loops agree |
| CourseAttrs.CeabEmptyCellRaises | parser.py:291-301 | one label over an empty cell raises in the written loop and stores 0 in the corrected one |
| CourseAttrs.ComponentMap | parser.py:276-278 | succeeds iff an even number of cells follow the label's position, and every kind cell becomes a key |
| CourseAttrs.ComponentMapKeys | parser.py:276-278 | every key of the component map is a kind cell |
| CourseAttrs.ComponentMapOfCells | parser.py:276-278 | a page listing kind/value pairs maps each kind to its last value |
| CourseAttrs.DetailEditboxes | parser.py:269-283 | the loop returns normally iff every key-map label before the first components label has a data cell at its position and the components table from that label reads without error; otherwise it raises IndexError, at once when the current label lacks its cell; keys outside the key map are untouched and no key is lost |
| CourseAttrs.DetailKeeps | parser.py:282-283 | a key that no later label maps to keeps its value to the end of the loop |
| CourseAttrs.DetailStoresText | parser.py:282-283 | a key-map label with a data cell at its position leaves that cell's text under its key, unless the same label comes again later |
| CourseAttrs.DetailStopsAtComponents | parser.py:274-281 | labels after the components label are never read |
| CourseAttrs.ComponentsStored | parser.py:274-281 | at the components label the component map is stored under its key |
| Meetings.DecodeDays | parser.py:429-444 | day cells give day numbers 1-7, at most one per two characters |
| Meetings.DecodeDaysOfEncoding | parser.py:429-444 | a cell of day abbreviations decodes to its days in reverse order |
| Meetings.OddCellMisreads | parser.py:429-444 | an odd-length day cell is read from the end, so "MoW" gives no days |
| Meetings.PairUp | parser.py:409-413 | names pair up iff there is an even number of parts, else IndexError |
| Meetings.PairUpAt | parser.py:410-413 | pair k is parts 2k and 2k+1 |
| Meetings.FormatName | parser.py:413 | a name formats iff both stripped parts are ASCII, as "last, other"; otherwise UnicodeEncodeError |
| Meetings.FormatNames | parser.py:409-413 | the pair loop raises only IndexError or UnicodeEncodeError and gives one name per two parts |
| Meetings.FormatNamesSucceeds | parser.py:409-413 | the pair loop returns normally iff the parts are even in number and every part of a complete pair strips to ASCII |
| Meetings.FormatNamesEncodeError | parser.py:409-413 | the pair loop raises UnicodeEncodeError iff some part of a complete pair does not strip to ASCII, even when an odd last part follows |
| Meetings.FormatNamesValue | parser.py:409-413 | a loop that returns gives each pair of parts, in order, as "last, other" |
| Meetings.Instructors | parser.py:403-413 | an empty, TBA or Staff cell gives no instructors; any other cell can raise only IndexError or UnicodeEncodeError |
| Meetings.InstructorsSucceeds | parser.py:403-413 | a named cell parses iff its comma-split parts are even in number and every paired part strips to ASCII, raises UnicodeEncodeError iff some paired part does not, and gives the pairs as "last, other" |
| Meetings.FirstPieceRaises | parser.py:409-413 | a cell whose first name part is not ASCII raises UnicodeEncodeError, whatever follows |
| Meetings.NonAsciiNameRaises | parser.py:409-413 | "é,x" and "é,x,y" both raise UnicodeEncodeError |
| Meetings.InstructorsOfNames | parser.py:403-413 | a cell of "last, other" pairs with ASCII parts gives back each name as "last, other" |
| Meetings.GroupMeetings | parser.py:415-444 | one meeting per decoded day, each with the row's times, location, dates and instructors |
| Meetings.Groups | parser.py:401-444 | rows of five cells each, with row g using instructor cell g; a failure is IndexError or the UnicodeEncodeError of an instructor cell |
| Meetings.GroupsSucceed | parser.py:401-413 | the rows parse iff the cells come in fives, there is an instructor cell per row and each such cell parses |
| Meetings.SectionAttrsAtIndex | parser.py:390-446 | a missing table raises; an empty cell raises AttributeError; it succeeds iff the table is there, every cell has text, the cells fill whole rows of five and each row's instructor cell exists and parses; a failing instructor cell passes on IndexError or UnicodeEncodeError; the result is the rows' meetings in order, each with a day number 1-7 |
| Meetings.SectionOfOneRow | parser.py:397-444 | a one-row table gives exactly that row's meetings, read from the cleaned cells and the parsed instructor cell |
| SectionAttrs.PyIndex | parser.py:500-503 | a Python index succeeds iff it is within minus length and length, and a negative index counts from the end |
| SectionAttrs.PyIndexFromEnd | parser.py:502-503 | index k and index k minus the length name the same cell |
| SectionAttrs.ClassDetails | parser.py:494-503 | the details succeed iff there are at least three cells and the label count lies in 10..2n+8; status and session are cells 0 and 2 |
| SectionAttrs.DetailsFromEnd | parser.py:497-503 | when the labels number the trailing cells plus 8, location and campus are the first two of those cells |
| SectionAttrs.ComponentsDoNotShift | parser.py:497-503 | cells inserted between the head and the tail do not move the location and campus |
| SectionAttrs.DetailsWrapAround | parser.py:497-503 | with more labels than cells plus 8, the location index goes negative and reads a cell from the end |
| SectionAttrs.IntOfCell | parser.py:509-512 | a cell converts iff it has text that parses; no text raises TypeError, bad text ValueError |
| SectionAttrs.ClassAvailability | parser.py:505-512 | the availability succeeds iff the first four cells convert |
| SectionAttrs.AvailabilityOfNumbers | parser.py:509-512 | four numeric cells are read back as class max, wait max, class current and wait current |
| SectionAttrs.AvailabilityFirstError | parser.py:509-512 | the first cell that fails decides the exception |
| SectionAttrs.TableStep | parser.py:488-512 | an unrecognised table changes nothing; a details box keeps the availability and an availability box keeps the details |
| SectionAttrs.SectionAttrsFrom | parser.py:488-514 | the table loop fails only with IndexError, TypeError or ValueError |
| SectionAttrs.NeitherBox | parser.py:488-492 | a page without either box gives empty details and availability |
| SectionAttrs.SectionAttrsAppend | parser.py:488-512 | the loop over two runs of tables is the loop over the first, continued over the second |
| SectionAttrs.IgnoredTableAnywhere | parser.py:489-492 | an unrecognised table can be removed from anywhere without changing the result |
| SectionAttrs.BothBoxes | parser.py:488-512 | one box of each kind gives both results, in either order |
| SectionAttrs.LaterDetailsWin | parser.py:494-503 | of two detail boxes, the later one's values are kept |
| Textbooks.NumAvailable | textbooks.py:34-39 | an empty or missing text, or one without "(" and a digit, gives 0 |
| Textbooks.NumAvailableOf | textbooks.py:34-39 | the number after the first "(" is read back |
| Textbooks.FindParenDigit | textbooks.py:36 | the search finds the leftmost "(" followed by a digit |
| Textbooks.DigitRun | textbooks.py:36 | `\d+` takes the maximal digit run |
| Textbooks.PriceAt | textbooks.py:43 | a match at a position is a price: "$", digits, ".", two digits |
| Textbooks.PriceAtExact | textbooks.py:43 | a price text of a given length matches at a position iff the match has that length |
| Textbooks.FindPrice | textbooks.py:43 | the search finds the leftmost price |
| Textbooks.Price | textbooks.py:41-46 | an empty or missing text has no price, and a found price has the price shape |
| Textbooks.PriceOf | textbooks.py:41-46 | a price after text without "$" is read back |
| Textbooks.Isbn | textbooks.py:106-117 | an ISBN is dropped iff it is missing or contains "[N/A]"; otherwise it is kept unchanged |
| Textbooks.IsbnIdempotent | textbooks.py:106-117 | applying the rule twice is applying it once |
| Textbooks.Byline | textbooks.py:96-98 | authors are stored iff the text starts with " by ", and are the rest of it |
| Textbooks.BylineOf | textbooks.py:96-98 | the names after " by " are read back |
| Textbooks.IsRequired | textbooks.py:101-103 | only a non-empty status can mark a book required |
| Textbooks.RequiredIgnoresCase | textbooks.py:101-103 | the required test does not depend on letter case |
| Textbooks.RequiredOfStatus | textbooks.py:101-103 | "Required" marks a book required and "Recommended" does not |
| Textbooks.Pad2 | textbooks.py:81 | the slot number is written as exactly two digits with its value |
| Textbooks.FieldIdsDistinct | textbooks.py:81-136 | distinct slots give distinct element ids |
| Textbooks.ScanSlots | textbooks.py:79-85 | the blocks are the even slots below 99 from the first, up to the first missing block |
| Textbooks.ScanAllPresent | textbooks.py:79-85 | a page with every block present has 50 blocks |
| Textbooks.Normalise | textbooks.py:105-133 | stored ISBNs never contain "[N/A]", and stored prices have the price shape |
| Textbooks.Entry | textbooks.py:89-138 | url, title and both ISBNs are always stored; required, prices, counts and classifieds only when truthy |
| Textbooks.Record | textbooks.py:89-138 | the record holds exactly the keys whose rule stores a value, with those values |
| Textbooks.RecordKeys | textbooks.py:95-138 | authors, required and classifieds are present iff their rules accept the span text |
| Textbooks.RecordNewKeys | textbooks.py:119-125 | new price and count are present iff a price is found and the count is non-zero |
| Textbooks.RecordUsedKeys | textbooks.py:127-133 | used price and count are present iff a price is found and the count is non-zero |
| Textbooks.WrittenKey | textbooks.py:141-143 | the file key of a written book (built at textbooks.py:12) is its ISBN-13 when truthy, otherwise its ISBN-10; it is a non-empty text without "[N/A]" |
| Textbooks.NoIsbnNoWrite | textbooks.py:141-143 | a book with neither ISBN is not written |
| Textbooks.ReadSpans | textbooks.py:92-136 | a missing span raises AttributeError |
| Textbooks.SlotBook | textbooks.py:139-143 | a block writes one book iff its record has an ISBN, and that book is the block's record under a non-empty key without "[N/A]" |
| Textbooks.PageBooks | textbooks.py:79-143 | at most one written book per block, each under a non-empty key without "[N/A]"; the loop ends without an exception iff every block's spans are there, and otherwise with AttributeError |
| Textbooks.PageBooksStopsAtError | textbooks.py:79-143 | at the first block with a missing span the loop raises AttributeError, and the books of the blocks before it stay written, exactly as on a page that ends there |
| Textbooks.SplitCourseText | textbooks.py:65 | a match is a non-empty run of non-digits followed by a non-empty run of digits at the start of the text |
| Textbooks.SplitCourseTextOf | textbooks.py:65 | subject and number are read back from their joined text |
| Textbooks.LinkEntry | textbooks.py:63-68 | a non-course href is skipped; a kept link has the course-booklist href and a subject whose upper-cased second character is a configured letter |
| Textbooks.LinkKeptBySecondCharacter | textbooks.py:65-68 | a well-formed course link is kept iff the second character of its subject is a configured letter |
| Textbooks.SecondCharacterExample | textbooks.py:67 | "ANAT100" is dropped with letters "A" and kept with letters "N" |
| Textbooks.CourseLinks | textbooks.py:63-68 | only TypeError or IndexError can be raised; the kept links are at most the given links and all point at course booklists |
| Textbooks.CourseLinksSucceeds | textbooks.py:63-68 | the loop returns normally iff no link's own test raises |
| Textbooks.CourseLinksOne | textbooks.py:63-68 | one link gives its own test's exception, or itself when kept and nothing when dropped |
| Textbooks.CourseLinksAppend | textbooks.py:63-68 | the kept links of a page are those of its first links followed by those of the rest, in page order |
| Textbooks.CourseLinksFirstError | textbooks.py:63-68 | the first link that raises decides the exception, whatever follows it |

## Left out

- HTTP, SSL and SSO login (`navigation.py` adapters, `login`, `do_continue_page`, `_get`, `_post`) are left out: they are transport. The site is the `Env` oracle, and each POST is its payload.
- `_update_attrs` and the hidden-field payload of each POST are left out. A post is its action and extras only.
- The request bound `maxPosts` is a fuel bound. A scrape against a site that keeps answering with error pages is cut off there, where the Python would recurse until its stack overflows.
- Threads, the job queue, `run_jobs` and `start_jobs` are left out: the model is the static split `make_jobs` computes.
- The BeautifulSoup DOM is not modelled. Each parser function takes the cell texts, labels and id-presence test the DOM would give.
- The page navigation `book.find("table").find("table").find_all("td")[1]` in `textbooks.py` is left out, and spans are looked up by id.
- Meetings.SectionAttrsAtIndex: times and dates (`strptime`, parser.py:419-427) are kept as the cleaned cell text, because `datetime` parsing is outside the model. So the ValueError `strptime` raises on a matched but impossible time or date, such as "13:00PM", is not raised by the model.
- `writer.py` and the file merging of `write_textbook` are left out: they are file I/O. The model stops at the record and its file key.
- `section_at_index` (parser.py:333-351) and the counting helpers `num_subjects`, `num_courses`, `num_sections` are left out. The traversal takes each page's children as given.
- `all_subjects`, `all_courses`, `all_section_data`, `section_deep_attrs` and `dump_html`, called from scraper.py, are not part of this model. The traversal models their documented results.
- The title, description and dropdown-label loop of `course_attrs` (parser.py:150-266) are left out: they are plain lookups. The unknown-box exception on line 304 is left out too.
- The traversal reads every subject, course, term and section by its `_unique` key (scraper.py:53, 57, 71, 93 and 114), so it assumes parser results keyed that way. The `all_terms` shown builds terms keyed `solus_id` (parser.py:326), and `subject_at_index` gives `action` (parser.py:148), so with this parser `scrape_terms` would raise KeyError at its first term. The model takes `_unique` as given (`TermNode.unique` and its siblings in `Scraper`) and does not connect the traversal to `Parser.AllTerms`.
- Logging and printing are left out. The `logging` calls at parser.py:16 and parser.py:348 would raise NameError too; they sit in the parser's constructor and in `section_at_index`, which are not part of this model. The one at parser.py:142 is under Findings.
- Text.Upper: ASCII only. Python 2 `unicode.upper` also maps other letters.
- Text.ParseInt: accepts ASCII digits only. Python 2 `int` on unicode text also accepts other Unicode decimal digits.
- Meetings.InstructorsOfNames: proved for names whose parts are ASCII and contain no whitespace. Names outside ASCII raise UnicodeEncodeError (`Meetings.FirstPieceRaises`); names with inner whitespace still parse through `Meetings.Instructors`, whose contract covers them.
- The shared mutable default `extras={}` of `_catalog_post` is modelled as a fresh empty map. The code only ever stores `ICAction` in it, and every call overwrites that key.

## Findings

| source | as written | input that shows it | evidently intended | confidence | as-written member | corrected member |
|---|---|---|---|---|---|---|
| navigation.py:175-191 | the button test is `if self.parser._validate_id(...)`, which returns the pair `(None, None)` when the button is missing; a non-empty tuple is truthy, so the test always passes and the action is posted either way | a course page with neither the show-sections nor the view-all button | post the action only when the button is on the page | not executed | Navigation.ShowSectionsAsWritten, Navigation.ViewAllSectionsAsWritten, Navigation.ButtonTestAlwaysPasses | Navigation.ShowSections, Navigation.ViewAllSections |
| parser.py:140-143 | the no-match path calls `logging.debug`, but the module never imports `logging`, so it raises NameError and the `return None` after it is never reached | a subject link whose text is "Foo" | return None, so that the subject is skipped | not executed | Parser.SubjectAtIndexAsWritten, Parser.SubjectWithoutDashRaises | Parser.SubjectAtIndex |
| parser.py:291-301 | `int(self._clean_html(data[x].string))` with `.string` None raises AttributeError inside `_clean_html`, which the `except (TypeError, ValueError)` does not catch | a CEAB box with label "Math:" over an empty cell | store 0, as for any cell that does not convert | not executed | CourseAttrs.CeabAsWritten, CourseAttrs.CeabAsWrittenSucceeds, CourseAttrs.CeabEmptyCellRaises | CourseAttrs.Ceab |
