/** The string logic of `SolusParser` (parser.py). The HTML library is not
    modelled: whatever a DOM query would return (an element's presence,
    its `.string`, the list of matching cells) is an input here. */
module Parser {
  import opened Py
  import opened Text

  // ------------------------------------------------------------------
  // Element ids by index
  // ------------------------------------------------------------------

  const SUBJECT_LINK_PREFIX := "DERIVED_SSS_BCC_GROUP_BOX_1$84$$"
  const COURSE_LINK_PREFIX := "CRSE_TITLE$"
  const SECTION_LINK_PREFIX := "CLASS_SECTION$"

  function SubjectId(index: Value): string { SUBJECT_LINK_PREFIX + FormatValue(index) }
  function CourseId(index: Value): string { COURSE_LINK_PREFIX + FormatValue(index) }
  function SectionId(index: Value): string { SECTION_LINK_PREFIX + FormatValue(index) }

  /** `_validate_id(link_id)[0]`: the id itself when an element with that id
      is on the page, otherwise None. */
  function ValidateId(onPage: string -> bool, linkId: string): (r: Option<string>)
    ensures r.Some? <==> onPage(linkId)
    ensures r.Some? ==> r.value == linkId
  {
    if onPage(linkId) then Some(linkId) else None
  }

  /** `subject_id_at_index(index)`. */
  function SubjectIdAtIndex(onPage: string -> bool, index: Value): (r: Option<string>)
    ensures r.Some? <==> onPage(SubjectId(index))
    ensures r.Some? ==> StartsWith(r.value, SUBJECT_LINK_PREFIX) && r.value[|SUBJECT_LINK_PREFIX|..] == FormatValue(index)
  {
    ValidateId(onPage, SubjectId(index))
  }

  /** `course_id_at_index(index)`. */
  function CourseIdAtIndex(onPage: string -> bool, index: Value): (r: Option<string>)
    ensures r.Some? <==> onPage(CourseId(index))
    ensures r.Some? ==> StartsWith(r.value, COURSE_LINK_PREFIX) && r.value[|COURSE_LINK_PREFIX|..] == FormatValue(index)
  {
    ValidateId(onPage, CourseId(index))
  }

  /** `section_id_at_index(index)`. */
  function SectionIdAtIndex(onPage: string -> bool, index: Value): (r: Option<string>)
    ensures r.Some? <==> onPage(SectionId(index))
    ensures r.Some? ==> StartsWith(r.value, SECTION_LINK_PREFIX) && r.value[|SECTION_LINK_PREFIX|..] == FormatValue(index)
  {
    ValidateId(onPage, SectionId(index))
  }

  /** Reads the index back out of an id of the given format. */
  function IndexOfId(prefix: string, id: string): Option<int> {
    if StartsWith(id, prefix) then ParseInt(id[|prefix|..]) else None
  }

  /** The id formats are one-to-one on integer indices: the index can be read
      back from the id, so distinct indices never share an id. */
  lemma IdsEncodeIndex(i: int)
    ensures IndexOfId(SUBJECT_LINK_PREFIX, SubjectId(PyInt(i))) == Some(i)
    ensures IndexOfId(COURSE_LINK_PREFIX, CourseId(PyInt(i))) == Some(i)
    ensures IndexOfId(SECTION_LINK_PREFIX, SectionId(PyInt(i))) == Some(i)
  {
    ParseIntOfIntToString(i);
    var t := IntToString(i);
    assert (SUBJECT_LINK_PREFIX + t)[|SUBJECT_LINK_PREFIX|..] == t;
    assert (COURSE_LINK_PREFIX + t)[|COURSE_LINK_PREFIX|..] == t;
    assert (SECTION_LINK_PREFIX + t)[|SECTION_LINK_PREFIX|..] == t;
  }

  lemma IdsInjective(i: int, j: int)
    requires i != j
    ensures SubjectId(PyInt(i)) != SubjectId(PyInt(j))
    ensures CourseId(PyInt(i)) != CourseId(PyInt(j))
    ensures SectionId(PyInt(i)) != SectionId(PyInt(j))
  {
    IdsEncodeIndex(i);
    IdsEncodeIndex(j);
  }

  // ------------------------------------------------------------------
  // _clean_html
  // ------------------------------------------------------------------

  const NBSP := "&nbsp;"

  /** `_clean_html(text)` on a string: every "&nbsp;" entity becomes a
      space, then surrounding whitespace is stripped. */
  function Clean(text: string): (r: string)
    ensures Trimmed(r)
  {
    Strip(ReplaceAll(text, NBSP, " "))
  }

  /** No "&nbsp;" survives cleaning. */
  lemma CleanRemovesNbsp(text: string)
    ensures !Contains(Clean(text), NBSP)
  {
    ReplaceAllRemoves(text, NBSP, ' ');
    StripKeepsAbsent(ReplaceAll(text, NBSP, " "), NBSP);
  }

  /** Every "&nbsp;" becomes exactly one space: text made of pieces free of
      '&' joined by the entity cleans to the pieces joined by spaces. */
  lemma CleanOfPieces(xs: seq<string>)
    requires |xs| >= 1
    requires forall k :: 0 <= k < |xs| ==> '&' !in xs[k]
    ensures Clean(JoinWith(xs, NBSP)) == Strip(JoinWith(xs, " "))
  {
    ReplaceAllJoin(xs, NBSP, " ");
  }

  /** One entity between two plain pieces. */
  lemma CleanNbspBetween(a: string, b: string)
    requires '&' !in a && '&' !in b
    ensures Clean(a + NBSP + b) == Strip(a + " " + b)
  {
    var xs := [a, b];
    assert xs[1..] == [b];
    assert JoinWith(xs, NBSP) == a + NBSP + b;
    assert JoinWith(xs, " ") == a + " " + b;
    CleanOfPieces(xs);
  }

  /** Text without "&nbsp;" is only stripped. */
  lemma CleanPlain(text: string)
    requires !Contains(text, NBSP)
    ensures Clean(text) == Strip(text)
  {
    ReplaceAllAbsent(text, NBSP, " ");
  }

  /** Cleaning is idempotent: cleaned text is a fixed point. */
  lemma CleanIdempotent(text: string)
    ensures Clean(Clean(text)) == Clean(text)
  {
    var c := Clean(text);
    CleanRemovesNbsp(text);
    ReplaceAllAbsent(c, NBSP, " ");
    StripIdempotent(ReplaceAll(text, NBSP, " "));
  }

  // ------------------------------------------------------------------
  // Regular-expression building blocks
  // ------------------------------------------------------------------

  /** Position of the first `c` in `s`, or `|s|` when there is none. */
  function IndexOf(s: string, c: char): (i: nat)
    ensures i <= |s|
    ensures c !in s[..i]
    ensures i < |s| ==> s[i] == c
    decreases |s|
  {
    if |s| == 0 then 0
    else if s[0] == c then 0
    else
      var j := IndexOf(s[1..], c);
      assert s[..j + 1] == [s[0]] + s[1..][..j];
      1 + j
  }

  /** What `(.*)$` captures of the rest of a string, when it matches: `.`
      stops at a newline and `$` matches at the end or just before a final
      newline. */
  function LineToEnd(rest: string): (r: Option<string>)
    ensures r.Some? ==> '\n' !in r.value && (rest == r.value || rest == r.value + "\n")
  {
    var body := if |rest| > 0 && rest[|rest| - 1] == '\n' then rest[..|rest| - 1] else rest;
    if '\n' in body then None else Some(body)
  }

  lemma LineToEndOf(b: string)
    requires '\n' !in b
    ensures LineToEnd(b) == Some(b)
    ensures LineToEnd(b + "\n") == Some(b)
  {
    assert (b + "\n")[..|b|] == b;
  }

  // ------------------------------------------------------------------
  // subject_at_index
  // ------------------------------------------------------------------

  datatype SubjectText = SubjectText(abbreviation: string, title: string)

  /** `re.search("^([^-]*) - (.*)$", t)`: the abbreviation runs up to the
      first '-', which must be the one inside " - "; the title is the rest of
      the line. */
  function SplitSubject(t: string): (r: Option<SubjectText>)
    ensures r.Some? ==> '-' !in r.value.abbreviation && '\n' !in r.value.title
    ensures r.Some? ==> t == r.value.abbreviation + " - " + r.value.title
                        || t == r.value.abbreviation + " - " + r.value.title + "\n"
  {
    var i := IndexOf(t, '-');
    if 1 <= i && i + 1 < |t| && t[i - 1] == ' ' && t[i + 1] == ' ' then
      match LineToEnd(t[i + 2..])
      case None => None
      case Some(title) =>
        assert t[..i - 1] + " - " + t[i + 2..] == t;
        assert '-' !in t[..i - 1] by { assert t[..i - 1] == t[..i][..i - 1]; }
        Some(SubjectText(t[..i - 1], title))
    else None
  }

  /** Reading "ABBR - Title" back gives the abbreviation and the title,
      whenever the abbreviation has no '-' and the title is one line. */
  lemma SplitSubjectOfText(a: string, b: string)
    requires '-' !in a && '\n' !in b
    ensures SplitSubject(a + " - " + b) == Some(SubjectText(a, b))
    ensures SplitSubject(a + " - " + b + "\n") == Some(SubjectText(a, b))
  {
    LineToEndOf(b);
    SplitSubjectAfter(a, b);
    assert a + " - " + b + "\n" == a + " - " + (b + "\n");
    SplitSubjectAfter(a, b + "\n");
  }

  /** Text "ABBR - rest" splits at the " - " after ABBR. */
  lemma SplitSubjectAfter(a: string, rest: string)
    requires '-' !in a
    ensures SplitSubject(a + " - " + rest) ==
              match LineToEnd(rest)
              case None => None
              case Some(title) => Some(SubjectText(a, title))
  {
    var t := a + " - " + rest;
    assert IndexOf(t, '-') == |a| + 1 by {
      assert t[..|a| + 1] == a + " ";
      SkipFree(t, a, '-', |a| + 1);
    }
    assert t[|a| + 3..] == rest;
    assert t[..|a|] == a;
  }

  /** `IndexOf` finds the first occurrence. */
  lemma SkipFree(t: string, a: string, c: char, i: nat)
    requires i < |t| && t[i] == c && c !in t[..i]
    ensures IndexOf(t, c) == i
  {
  }

  datatype Subject = Subject(title: string, abbreviation: string, action: string)

  /** `subject_at_index(index)`: None when the subject link is not on the
      page or its cleaned text is not "ABBR - Title". `text` is the link's
      `get_text()`. */
  function SubjectAtIndex(onPage: string -> bool, index: Value, text: string): (r: Option<Subject>)
    ensures r.Some? <==> onPage(SubjectId(index)) && SplitSubject(Clean(text)).Some?
    ensures r.Some? ==> r.value.action == SubjectId(index)
    ensures r.Some? ==> Clean(text) == r.value.abbreviation + " - " + r.value.title
    ensures r.Some? ==> '-' !in r.value.abbreviation
  {
    var c := Clean(text);
    match SubjectIdAtIndex(onPage, index)
    case None => None
    case Some(linkId) =>
      match SplitSubject(c)
      case None => None
      case Some(st) =>
        assert c != st.abbreviation + " - " + st.title + "\n";
        Some(Subject(st.title, st.abbreviation, linkId))
  }

  /** `subject_at_index(index)` as written: the module never imports
      `logging`, so when the link is on the page but its text is not
      "ABBR - Title", the `logging.debug` call raises NameError before the
      `return None` after it. Everywhere else it agrees with
      `SubjectAtIndex`, which returns None there as intended. */
  function SubjectAtIndexAsWritten(onPage: string -> bool, index: Value, text: string): (r: Result<Option<Subject>>)
    ensures r.Err? <==> onPage(SubjectId(index)) && SplitSubject(Clean(text)).None?
    ensures r.Err? ==> r.exc == NameError
    ensures r.Ok? ==> r.value == SubjectAtIndex(onPage, index, text)
  {
    match SubjectIdAtIndex(onPage, index)
    case None => Ok(None)
    case Some(_) =>
      if SplitSubject(Clean(text)).None? then Err(NameError)
      else Ok(SubjectAtIndex(onPage, index, text))
  }

  /** The discrepancy: a subject link whose text has no '-' (say "Foo")
      raises NameError as written, where the corrected version finds no
      subject. */
  lemma SubjectWithoutDashRaises(onPage: string -> bool, index: Value, text: string)
    requires onPage(SubjectId(index))
    requires Trimmed(text) && '-' !in text && '&' !in text
    ensures SubjectAtIndexAsWritten(onPage, index, text) == Err(NameError)
    ensures SubjectAtIndex(onPage, index, text) == None
  {
    forall i | 0 <= i <= |text| - |NBSP|
      ensures !StartsWith(text[i..], NBSP)
    {
      assert text[i] in text;
      assert text[i..][..|NBSP|][0] == text[i];
    }
    CleanPlain(text);
    var i := IndexOf(text, '-');
    assert i == |text|;
  }

  // ------------------------------------------------------------------
  // all_terms
  // ------------------------------------------------------------------

  /** Length of the leading run of characters that are not regex
      whitespace. */
  function NonSpaceRun(s: string): (n: nat)
    ensures n <= |s|
    ensures forall k :: 0 <= k < n ==> !IsRegexSpace(s[k])
    ensures n == |s| || IsRegexSpace(s[n])
    decreases |s|
  {
    if |s| > 0 && !IsRegexSpace(s[0]) then 1 + NonSpaceRun(s[1..]) else 0
  }

  datatype TermText = TermText(year: string, season: string)

  /** `re.search('^([^\s]+) (.+)$', s)`: the year is the leading run of
      non-whitespace, followed by exactly one space and a non-empty season
      on the same line. */
  function ParseTerm(s: string): (r: Option<TermText>)
    ensures r.Some? ==> |r.value.year| > 0 && |r.value.season| > 0
    ensures r.Some? ==> forall k :: 0 <= k < |r.value.year| ==> !IsRegexSpace(r.value.year[k])
    ensures r.Some? ==> '\n' !in r.value.season
    ensures r.Some? ==> s == r.value.year + " " + r.value.season
                        || s == r.value.year + " " + r.value.season + "\n"
  {
    var n := NonSpaceRun(s);
    if n == 0 || n == |s| || s[n] != ' ' then None
    else
      match LineToEnd(s[n + 1..])
      case None => None
      case Some(season) =>
        if season == "" then None
        else
          assert s[..n] + " " + s[n + 1..] == s;
          Some(TermText(s[..n], season))
  }

  /** Formatting a term option and parsing it back is the identity. */
  lemma ParseTermOfText(year: string, season: string)
    requires |year| > 0 && forall k :: 0 <= k < |year| ==> !IsRegexSpace(year[k])
    requires |season| > 0 && '\n' !in season
    ensures ParseTerm(year + " " + season) == Some(TermText(year, season))
  {
    var s := year + " " + season;
    LineToEndOf(season);
    assert NonSpaceRun(s) == |year| by {
      RunOfPrefix(s, year);
    }
    assert s[..|year|] == year;
    assert s[|year| + 1..] == season;
  }

  lemma {:induction false} RunOfPrefix(s: string, w: string)
    requires |w| < |s| && s[..|w|] == w && IsRegexSpace(s[|w|])
    requires forall k :: 0 <= k < |w| ==> !IsRegexSpace(w[k])
    ensures NonSpaceRun(s) == |w|
    decreases |w|
  {
    if |w| > 0 {
      assert s[1..][..|w| - 1] == w[1..];
      RunOfPrefix(s[1..], w[1..]);
    }
  }

  /** An `<option>` of the term dropdown: its `value` attribute (None when
      the option has none) and its `.string` (None when the option has no
      single text child). */
  datatype TermOption = TermOption(value: Option<string>, text: Option<string>)

  datatype Term = Term(solusId: string, year: string, season: string)

  /** `all_terms()`: every option whose text parses becomes a term, in page
      order; a course with no term dropdown has no terms. The first option
      that fails decides the exception: TypeError from `re.search` when it
      has no text, KeyError from `x['value']` when its text matches and it
      has no value attribute. */
  function AllTerms(dropdownFound: bool, options: seq<TermOption>): (r: Result<seq<Term>>)
    ensures !dropdownFound ==> r == Ok([])
    ensures r.Ok? <==> !dropdownFound || forall k :: 0 <= k < |options| ==> OptionTerms(options[k]).Ok?
    ensures r.Err? ==> r.exc == TypeError || r.exc == KeyError
    ensures r.Ok? ==> |r.value| <= |options|
  {
    if !dropdownFound then Ok([])
    else
      TermsOfSucceeds(options);
      TermsOf(options)
  }

  /** What one option contributes: TypeError without text, nothing when its
      text does not match, KeyError when it matches but the option has no
      value, and otherwise the term read from the text. */
  function OptionTerms(o: TermOption): (r: Result<seq<Term>>)
    ensures r.Err? <==> o.text.None? || (ParseTerm(o.text.value).Some? && o.value.None?)
    ensures r.Err? ==> r.exc == if o.text.None? then TypeError else KeyError
    ensures r.Ok? ==> |r.value| <= 1 && (|r.value| == 1 <==> ParseTerm(o.text.value).Some?)
    ensures r.Ok? && |r.value| == 1 ==>
              r.value[0].solusId == o.value.value
              && TermText(r.value[0].year, r.value[0].season) == ParseTerm(o.text.value).value
  {
    match o.text
    case None => Err(TypeError)
    case Some(t) =>
      match ParseTerm(t)
      case None => Ok([])
      case Some(tt) =>
        match o.value
        case None => Err(KeyError)
        case Some(v) => Ok([Term(v, tt.year, tt.season)])
  }

  /** The option loop: the terms of every option in order, or the exception
      of the first option that raises. */
  function TermsOf(options: seq<TermOption>): (r: Result<seq<Term>>)
    ensures r.Err? ==> r.exc == TypeError || r.exc == KeyError
    ensures r.Ok? ==> |r.value| <= |options|
    decreases |options|
  {
    if options == [] then Ok([])
    else
      match OptionTerms(options[0])
      case Err(e) => Err(e)
      case Ok(ts) =>
        match TermsOf(options[1..])
        case Err(e) => Err(e)
        case Ok(rest) => Ok(ts + rest)
  }

  /** The option loop returns normally exactly when no option raises. */
  lemma {:induction false} TermsOfSucceeds(options: seq<TermOption>)
    ensures TermsOf(options).Ok? <==> forall k :: 0 <= k < |options| ==> OptionTerms(options[k]).Ok?
    decreases |options|
  {
    if options != [] {
      TermsOfSucceeds(options[1..]);
      assert forall k :: 1 <= k < |options| ==> options[k] == options[1..][k - 1];
    }
  }

  /** The first option that raises decides the exception, whatever follows
      it. */
  lemma {:induction false} TermsOfFirstError(options: seq<TermOption>, k: nat)
    requires k < |options| && OptionTerms(options[k]).Err?
    requires forall j :: 0 <= j < k ==> OptionTerms(options[j]).Ok?
    ensures TermsOf(options) == Err(OptionTerms(options[k]).exc)
    decreases k
  {
    if k > 0 {
      var tail := options[1..];
      assert tail[k - 1] == options[k];
      forall j | 0 <= j < k - 1
        ensures OptionTerms(tail[j]).Ok?
      {
        assert tail[j] == options[j + 1];
      }
      TermsOfFirstError(tail, k - 1);
      assert OptionTerms(options[0]).Ok?;
    }
  }

  /** The exception of `all_terms()` is that of its first failing option:
      TypeError when that option has no text, KeyError otherwise. */
  lemma AllTermsFirstError(options: seq<TermOption>, k: nat)
    requires k < |options| && OptionTerms(options[k]).Err?
    requires forall j :: 0 <= j < k ==> OptionTerms(options[j]).Ok?
    ensures AllTerms(true, options) == Err(if options[k].text.None? then TypeError else KeyError)
  {
    TermsOfFirstError(options, k);
  }

  /** Term extraction works option by option: the terms of a page are the
      terms of its first options followed by those of the rest, so page
      order is kept and a non-matching option is skipped. */
  lemma {:induction false} TermsOfAppend(a: seq<TermOption>, b: seq<TermOption>)
    requires TermsOf(a).Ok? && TermsOf(b).Ok?
    ensures TermsOf(a + b) == Ok(TermsOf(a).value + TermsOf(b).value)
    decreases |a|
  {
    if a == [] {
      assert a + b == b;
      assert TermsOf(a).value + TermsOf(b).value == TermsOf(b).value;
    } else {
      var ab := a + b;
      assert ab[0] == a[0] && ab[1..] == a[1..] + b;
      TermsOfStep(a);
      TermsOfAppend(a[1..], b);
      TermsOfCons(ab);
      AppendAssoc(OptionTerms(a[0]).value, TermsOf(a[1..]).value, TermsOf(b).value);
    }
  }

  /** A loop that succeeds has a first option and a tail that succeed. */
  lemma TermsOfStep(options: seq<TermOption>)
    requires |options| > 0 && TermsOf(options).Ok?
    ensures OptionTerms(options[0]).Ok? && TermsOf(options[1..]).Ok?
    ensures TermsOf(options).value == OptionTerms(options[0]).value + TermsOf(options[1..]).value
  {
  }

  /** A first option that succeeds followed by a tail that succeeds. */
  lemma TermsOfCons(options: seq<TermOption>)
    requires |options| > 0 && OptionTerms(options[0]).Ok? && TermsOf(options[1..]).Ok?
    ensures TermsOf(options) == Ok(OptionTerms(options[0]).value + TermsOf(options[1..]).value)
  {
  }

  /** One option with text: it gives its term when the text parses and it
      has a value, raises KeyError when the text parses and it has none,
      and gives nothing when the text does not parse. */
  lemma TermsOfOne(o: TermOption, t: string)
    requires o.text == Some(t)
    ensures ParseTerm(t).Some? && o.value.Some? ==>
              AllTerms(true, [o]) == Ok([Term(o.value.value, ParseTerm(t).value.year, ParseTerm(t).value.season)])
    ensures ParseTerm(t).Some? && o.value.None? ==> AllTerms(true, [o]) == Err(KeyError)
    ensures ParseTerm(t).None? ==> AllTerms(true, [o]) == Ok([])
  {
    assert [o][1..] == [];
    assert TermsOf([o][1..]) == Ok([]);
    if OptionTerms(o).Ok? {
      assert OptionTerms(o).value + [] == OptionTerms(o).value;
    }
  }
}
