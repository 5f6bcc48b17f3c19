/** `SolusParser.section_attrs` in parser.py: the section page's "Class
    Details" box, read at fixed cell offsets, and its "Class Availability"
    box, whose first four cells are enrolment integers. A table reaches the
    model as the `.string` of its header cell, the number of its editbox
    labels and the `.string` of each of its data cells. */
module SectionAttrs {
  import opened Py
  import opened Text

  const DETAIL_LABEL := "Class Details"
  const AVAILABILITY_LABEL := "Class Availability"

  /** `xs[i]` for a Python list: a negative index counts from the end and
      anything outside `-len(xs) .. len(xs) - 1` raises IndexError. */
  function PyIndex<T>(xs: seq<T>, i: int): (r: Result<T>)
    ensures r.Ok? <==> -|xs| <= i < |xs|
    ensures r.Err? ==> r.exc == IndexError
    ensures r.Ok? ==> r.value == xs[i % |xs|]
  {
    if 0 <= i < |xs| then Ok(xs[i])
    else if -|xs| <= i < 0 then Ok(xs[|xs| + i])
    else Err(IndexError)
  }

  /** A negative index names the same element as its non-negative
      counterpart. */
  lemma PyIndexFromEnd<T>(xs: seq<T>, k: nat)
    requires k < |xs|
    ensures PyIndex(xs, k - |xs|) == PyIndex(xs, k) == Ok(xs[k])
  {
  }

  // ------------------------------------------------------------------
  // Class Details
  // ------------------------------------------------------------------

  datatype Details = Details(status: Option<string>, session: Option<string>, location: Option<string>, campus: Option<string>)

  /** The "Class Details" box: status and session sit at cells 0 and 2,
      location and campus at 8 and 9 shifted by the number of data cells
      that have no label (the course components). */
  function ClassDetails(labelCount: nat, data: seq<Option<string>>): (r: Result<Details>)
    ensures r.Ok? <==> 3 <= |data| && 10 <= labelCount <= 2 * |data| + 8
    ensures r.Err? ==> r.exc == IndexError
    ensures r.Ok? ==> r.value.status == data[0] && r.value.session == data[2]
  {
    var numComponents := |data| - labelCount;
    var status :- PyIndex(data, 0);
    var session :- PyIndex(data, 2);
    var location :- PyIndex(data, 8 + numComponents);
    var campus :- PyIndex(data, 9 + numComponents);
    Ok(Details(status, session, location, campus))
  }

  /** Location and campus are counted from the end of the box: with
      `labelCount - 8` cells after the leading ones they are the first two
      of those, whatever sits in between. */
  lemma DetailsFromEnd(labelCount: nat, head: seq<Option<string>>, middle: seq<Option<string>>, tail: seq<Option<string>>)
    requires 10 <= labelCount && 3 <= |head| && |tail| == labelCount - 8
    ensures ClassDetails(labelCount, head + middle + tail) == Ok(Details(head[0], head[2], tail[0], tail[1]))
  {
    var data := head + middle + tail;
    assert data[|head| + |middle|] == tail[0] && data[|head| + |middle| + 1] == tail[1];
  }

  /** Unlabelled component cells inserted before the trailing cells leave
      the details unchanged. */
  lemma ComponentsDoNotShift(labelCount: nat, head: seq<Option<string>>, extra: seq<Option<string>>, tail: seq<Option<string>>)
    requires 10 <= labelCount && 3 <= |head| && |tail| == labelCount - 8
    ensures ClassDetails(labelCount, head + extra + tail) == ClassDetails(labelCount, head + tail)
  {
    DetailsFromEnd(labelCount, head, extra, tail);
    DetailsFromEnd(labelCount, head, [], tail);
    assert head + [] + tail == head + tail;
  }

  /** With more labels than the box has room for, the location offset goes
      negative and Python reads a cell counted from the end instead of
      raising. */
  lemma DetailsWrapAround(labelCount: nat, data: seq<Option<string>>)
    requires 3 <= |data| && |data| + 8 < labelCount <= 2 * |data| + 8
    ensures ClassDetails(labelCount, data).Ok?
    ensures ClassDetails(labelCount, data).value.location == data[2 * |data| + 8 - labelCount]
  {
  }

  // ------------------------------------------------------------------
  // Class Availability
  // ------------------------------------------------------------------

  datatype Availability = Availability(classMax: int, waitMax: int, classCurr: int, waitCurr: int)

  /** `int(cell.string)`: None raises TypeError and text that is not an
      integer raises ValueError. */
  function IntOfCell(cell: Option<string>): (r: Result<int>)
    ensures r.Ok? <==> cell.Some? && ParseInt(cell.value).Some?
    ensures r.Err? ==> (r.exc == TypeError <==> cell.None?)
    ensures r.Err? ==> r.exc == TypeError || r.exc == ValueError
  {
    match cell
    case None => Err(TypeError)
    case Some(s) =>
      match ParseInt(s)
      case None => Err(ValueError)
      case Some(i) => Ok(i)
  }

  /** `int(data[k].string)`. */
  function AvailabilityCell(data: seq<Option<string>>, k: nat): (r: Result<int>)
    ensures r.Ok? <==> k < |data| && IntOfCell(data[k]).Ok?
    ensures k >= |data| ==> r == Err(IndexError)
  {
    if k < |data| then IntOfCell(data[k]) else Err(IndexError)
  }

  /** The "Class Availability" box: cells 0 to 3 hold the class maximum,
      the waitlist maximum, the enrolment and the waitlist length, read in
      that order so the first bad cell decides the exception. */
  function ClassAvailability(data: seq<Option<string>>): (r: Result<Availability>)
    ensures r.Ok? <==> AvailabilityCell(data, 0).Ok? && AvailabilityCell(data, 1).Ok? && AvailabilityCell(data, 2).Ok? && AvailabilityCell(data, 3).Ok?
    ensures r.Ok? ==> |data| >= 4
  {
    var classMax :- AvailabilityCell(data, 0);
    var waitMax :- AvailabilityCell(data, 1);
    var classCurr :- AvailabilityCell(data, 2);
    var waitCurr :- AvailabilityCell(data, 3);
    Ok(Availability(classMax, waitMax, classCurr, waitCurr))
  }

  /** Availability round trip: a box showing four formatted integers reads
      back as those integers, in the box's order. */
  lemma AvailabilityOfNumbers(data: seq<Option<string>>, classMax: int, waitMax: int, classCurr: int, waitCurr: int)
    requires |data| >= 4
    requires data[0] == Some(IntToString(classMax)) && data[1] == Some(IntToString(waitMax))
    requires data[2] == Some(IntToString(classCurr)) && data[3] == Some(IntToString(waitCurr))
    ensures ClassAvailability(data) == Ok(Availability(classMax, waitMax, classCurr, waitCurr))
  {
    CellOfNumber(data, 0, classMax);
    CellOfNumber(data, 1, waitMax);
    CellOfNumber(data, 2, classCurr);
    CellOfNumber(data, 3, waitCurr);
    AvailabilityOfCells(data, classMax, waitMax, classCurr, waitCurr);
  }

  lemma AvailabilityOfCells(data: seq<Option<string>>, classMax: int, waitMax: int, classCurr: int, waitCurr: int)
    requires AvailabilityCell(data, 0) == Ok(classMax) && AvailabilityCell(data, 1) == Ok(waitMax)
    requires AvailabilityCell(data, 2) == Ok(classCurr) && AvailabilityCell(data, 3) == Ok(waitCurr)
    ensures ClassAvailability(data) == Ok(Availability(classMax, waitMax, classCurr, waitCurr))
  {
  }

  lemma CellOfNumber(data: seq<Option<string>>, k: nat, x: int)
    requires k < |data| && data[k] == Some(IntToString(x))
    ensures AvailabilityCell(data, k) == Ok(x)
  {
    ParseIntOfIntToString(x);
  }

  /** The exception is the one of the first cell that fails. */
  lemma AvailabilityFirstError(data: seq<Option<string>>, k: nat)
    requires k < 4 && AvailabilityCell(data, k).Err?
    requires forall j :: 0 <= j < k ==> AvailabilityCell(data, j).Ok?
    ensures ClassAvailability(data) == Err(AvailabilityCell(data, k).exc)
  {
    if k > 0 { assert AvailabilityCell(data, 0).Ok?; }
    if k > 1 { assert AvailabilityCell(data, 1).Ok?; }
    if k > 2 { assert AvailabilityCell(data, 2).Ok?; }
  }

  // ------------------------------------------------------------------
  // The table loop
  // ------------------------------------------------------------------

  /** A `PSGROUPBOXWBO` table: the `.string` of its header cell (None when
      the header cell is missing or has no text), its label count and its
      data cells. */
  datatype Table = Table(header: Option<string>, labelCount: nat, data: seq<Option<string>>)

  /** The result dictionary; None stands for a box that was never filled. */
  datatype SectionInfo = SectionInfo(details: Option<Details>, availability: Option<Availability>)

  predicate Recognised(t: Table) {
    t.header == Some(DETAIL_LABEL) || t.header == Some(AVAILABILITY_LABEL)
  }

  /** One pass of the loop: a details box overwrites the details, an
      availability box the availability, and any other table is skipped. */
  function TableStep(info: SectionInfo, t: Table): (r: Result<SectionInfo>)
    ensures !Recognised(t) ==> r == Ok(info)
    ensures r.Ok? && t.header == Some(DETAIL_LABEL) ==> r.value.availability == info.availability
    ensures r.Ok? && t.header == Some(AVAILABILITY_LABEL) ==> r.value.details == info.details
  {
    if !TruthyText(t.header) then Ok(info)
    else if t.header.value == DETAIL_LABEL then
      var d :- ClassDetails(t.labelCount, t.data);
      Ok(info.(details := Some(d)))
    else if t.header.value == AVAILABILITY_LABEL then
      var a :- ClassAvailability(t.data);
      Ok(info.(availability := Some(a)))
    else Ok(info)
  }

  /** The loop over the page's tables, in page order, from `info`. */
  function SectionAttrsFrom(info: SectionInfo, tables: seq<Table>): (r: Result<SectionInfo>)
    ensures r.Err? ==> r.exc == IndexError || r.exc == TypeError || r.exc == ValueError
    decreases |tables|
  {
    if tables == [] then Ok(info)
    else
      var next :- TableStep(info, tables[0]);
      SectionAttrsFrom(next, tables[1..])
  }

  /** `section_attrs()`: both boxes start empty. */
  function SectionAttrsOf(tables: seq<Table>): Result<SectionInfo> {
    SectionAttrsFrom(SectionInfo(None, None), tables)
  }

  /** A page without either box yields two empty boxes. */
  lemma NeitherBox(tables: seq<Table>)
    requires forall k :: 0 <= k < |tables| ==> !Recognised(tables[k])
    ensures SectionAttrsOf(tables) == Ok(SectionInfo(None, None))
  {
    SkipAll(SectionInfo(None, None), tables);
  }

  /** Tables the loop does not recognise change nothing. */
  lemma {:induction false} SkipAll(info: SectionInfo, tables: seq<Table>)
    requires forall k :: 0 <= k < |tables| ==> !Recognised(tables[k])
    ensures SectionAttrsFrom(info, tables) == Ok(info)
    decreases |tables|
  {
    if tables != [] {
      assert !Recognised(tables[0]);
      SkipAll(info, tables[1..]);
    }
  }

  /** The loop over a concatenation is the loop over the first part
      followed by the loop over the second, unless the first raises. */
  lemma {:induction false} SectionAttrsAppend(info: SectionInfo, a: seq<Table>, b: seq<Table>)
    ensures SectionAttrsFrom(info, a + b)
         == match SectionAttrsFrom(info, a)
            case Err(e) => Err(e)
            case Ok(mid) => SectionAttrsFrom(mid, b)
    decreases |a|
  {
    if a == [] {
      assert a + b == b;
    } else {
      assert (a + b)[0] == a[0] && (a + b)[1..] == a[1..] + b;
      match TableStep(info, a[0])
      case Err(e) =>
        assert SectionAttrsFrom(info, a + b) == Err(e);
      case Ok(next) =>
        assert SectionAttrsFrom(info, a + b) == SectionAttrsFrom(next, a[1..] + b);
        SectionAttrsAppend(next, a[1..], b);
    }
  }

  /** A table the loop does not recognise may be inserted anywhere. */
  lemma IgnoredTableAnywhere(info: SectionInfo, a: seq<Table>, t: Table, b: seq<Table>)
    requires !Recognised(t)
    ensures SectionAttrsFrom(info, a + [t] + b) == SectionAttrsFrom(info, a + b)
  {
    SectionAttrsAppend(info, a, [t] + b);
    SectionAttrsAppend(info, a, b);
    assert a + [t] + b == a + ([t] + b);
    match SectionAttrsFrom(info, a)
    case Err(_) =>
    case Ok(mid) =>
      assert ([t] + b)[0] == t && ([t] + b)[1..] == b;
  }

  /** A page with a details box and an availability box that both read
      cleanly yields both, in either order. */
  lemma BothBoxes(d: Table, a: Table)
    requires d.header == Some(DETAIL_LABEL) && a.header == Some(AVAILABILITY_LABEL)
    requires ClassDetails(d.labelCount, d.data).Ok? && ClassAvailability(a.data).Ok?
    ensures SectionAttrsOf([d, a]) == SectionAttrsOf([a, d])
         == Ok(SectionInfo(Some(ClassDetails(d.labelCount, d.data).value), Some(ClassAvailability(a.data).value)))
  {
    var dv := ClassDetails(d.labelCount, d.data).value;
    var av := ClassAvailability(a.data).value;
    var empty := SectionInfo(None, None);
    assert TableStep(empty, d) == Ok(SectionInfo(Some(dv), None));
    assert TableStep(empty, a) == Ok(SectionInfo(None, Some(av)));
    assert TableStep(SectionInfo(Some(dv), None), a) == Ok(SectionInfo(Some(dv), Some(av)));
    assert TableStep(SectionInfo(None, Some(av)), d) == Ok(SectionInfo(Some(dv), Some(av)));
    assert [d, a][1..] == [a] && [a, d][1..] == [d];
    assert [a][1..] == [] && [d][1..] == [];
    var both := SectionInfo(Some(dv), Some(av));
    assert SectionAttrsFrom(SectionInfo(Some(dv), None), [a]) == Ok(both);
    assert SectionAttrsFrom(SectionInfo(None, Some(av)), [d]) == Ok(both);
    assert SectionAttrsFrom(empty, [d, a]) == Ok(both);
    assert SectionAttrsFrom(empty, [a, d]) == Ok(both);
  }

  /** A later details box overwrites an earlier one. */
  lemma LaterDetailsWin(info: SectionInfo, d1: Table, d2: Table)
    requires d1.header == Some(DETAIL_LABEL) && d2.header == Some(DETAIL_LABEL)
    requires ClassDetails(d1.labelCount, d1.data).Ok?
    ensures SectionAttrsFrom(info, [d1, d2]) == SectionAttrsFrom(info, [d2])
  {
    assert [d1, d2][1..] == [d2];
  }
}
