/** Two branches of `SolusParser.course_attrs` in parser.py: the "CEAB
    Units" box, whose cells become integers keyed by their labels, and the
    editbox loop of the "Course Detail" box, whose "Course Components"
    label starts a run of kind/value cell pairs. A DOM element reaches the
    model as its `.string` (None when the element has no single text child)
    and, for data cells, its `get_text()`. */
module CourseAttrs {
  import opened Py
  import opened Text
  import Parser

  // ------------------------------------------------------------------
  // CEAB units
  // ------------------------------------------------------------------

  /** The CEAB key of a label: the label without its last character (the
      trailing ':'). */
  function CeabKey(caption: string): (k: string)
    requires |caption| > 0
    ensures |k| + 1 == |caption| && caption == k + [caption[|caption| - 1]]
  {
    caption[..|caption| - 1]
  }

  /** `int(_clean_html(text))`, with ValueError mapped to 0. */
  function CellNumber(text: string): int {
    ParseInt(Parser.Clean(text)).GetOr(0)
  }

  /** A cell's CEAB value: its cleaned integer, or 0 when it holds none —
      a cell with no text included, which is what the `TypeError` handler
      was evidently written for. */
  function CeabCell(cell: Option<string>): (v: int)
    ensures cell.None? ==> v == 0
  {
    match cell
    case None => 0
    case Some(text) => CellNumber(text)
  }

  /** One label's contribution: a truthy label stores the value under its
      key, overwriting an earlier entry; any other label stores nothing. */
  function Store(m: map<string, int>, caption: Option<string>, v: int): (r: map<string, int>)
    ensures TruthyText(caption) ==> r == m[CeabKey(caption.value) := v]
    ensures !TruthyText(caption) ==> r == m
  {
    if TruthyText(caption) then m[CeabKey(caption.value) := v] else m
  }

  /** The CEAB loop, corrected: label x takes data cell x, which must
      exist; a cell with no text counts 0. Entries go into `acc`, the
      course's CEAB map so far. */
  function Ceab(labels: seq<Option<string>>, data: seq<Option<string>>, acc: map<string, int>): (r: Result<map<string, int>>)
    ensures r.Ok? <==> |labels| <= |data|
    ensures r.Err? ==> r.exc == IndexError
    ensures r.Ok? ==> forall x :: 0 <= x < |labels| && TruthyText(labels[x]) ==> CeabKey(labels[x].value) in r.value
    ensures r.Ok? ==> forall key :: key in acc ==> key in r.value
    decreases |labels|
  {
    if labels == [] then Ok(acc)
    else
      var n := |labels| - 1;
      match Ceab(labels[..n], data, acc)
      case Err(e) => Err(e)
      case Ok(m) =>
        if n >= |data| then Err(IndexError)
        else
          var r := Store(m, labels[n], CeabCell(data[n]));
          assert forall x :: 0 <= x < n ==> labels[..n][x] == labels[x];
          Ok(r)
  }

  /** Every key of the CEAB map was already in `acc` or comes from a
      truthy label. */
  lemma {:induction false} CeabKeys(labels: seq<Option<string>>, data: seq<Option<string>>, acc: map<string, int>, key: string)
    requires Ceab(labels, data, acc).Ok? && key in Ceab(labels, data, acc).value
    ensures key in acc || exists x :: 0 <= x < |labels| && TruthyText(labels[x]) && CeabKey(labels[x].value) == key
    decreases |labels|
  {
    if labels != [] {
      var n := |labels| - 1;
      var m := Ceab(labels[..n], data, acc).value;
      assert Ceab(labels, data, acc).value == Store(m, labels[n], CeabCell(data[n]));
      if key in m {
        CeabKeys(labels[..n], data, acc, key);
        if key !in acc {
          var x :| 0 <= x < n && TruthyText(labels[..n][x]) && CeabKey(labels[..n][x].value) == key;
          assert labels[..n][x] == labels[x];
        }
      }
    }
  }

  /** The entry for a label is the value of the last cell whose label has
      the same key: later boxes and rows overwrite earlier ones. */
  lemma {:induction false} CeabValue(labels: seq<Option<string>>, data: seq<Option<string>>, acc: map<string, int>, x: nat)
    requires Ceab(labels, data, acc).Ok?
    requires x < |labels| && TruthyText(labels[x])
    requires forall y :: x < y < |labels| && TruthyText(labels[y]) ==> CeabKey(labels[y].value) != CeabKey(labels[x].value)
    ensures Ceab(labels, data, acc).value[CeabKey(labels[x].value)] == CeabCell(data[x])
    decreases |labels|
  {
    var n := |labels| - 1;
    var m := Ceab(labels[..n], data, acc).value;
    var key := CeabKey(labels[x].value);
    assert Ceab(labels, data, acc).value == Store(m, labels[n], CeabCell(data[n]));
    if x < n {
      assert labels[..n][x] == labels[x];
      forall y | x < y < |labels[..n]| && TruthyText(labels[..n][y])
        ensures CeabKey(labels[..n][y].value) != CeabKey(labels[..n][x].value)
      {
        assert labels[..n][y] == labels[y];
      }
      CeabValue(labels[..n], data, acc, x);
      assert !TruthyText(labels[n]) || CeabKey(labels[n].value) != key;
    }
  }

  /** A key no label produces keeps the value it had in `acc`. */
  lemma {:induction false} CeabKeepsOthers(labels: seq<Option<string>>, data: seq<Option<string>>, acc: map<string, int>, key: string)
    requires Ceab(labels, data, acc).Ok? && key in acc
    requires forall x :: 0 <= x < |labels| && TruthyText(labels[x]) ==> CeabKey(labels[x].value) != key
    ensures Ceab(labels, data, acc).value[key] == acc[key]
    decreases |labels|
  {
    if labels != [] {
      var n := |labels| - 1;
      forall x | 0 <= x < n && TruthyText(labels[..n][x])
        ensures CeabKey(labels[..n][x].value) != key
      {
        assert labels[..n][x] == labels[x];
      }
      CeabKeepsOthers(labels[..n], data, acc, key);
    }
  }

  /** The loop as written: `_clean_html` is applied to the cell's `.string`
      inside the `try`, and a cell with no text makes it raise
      AttributeError, which the handler (TypeError, ValueError) does not
      catch. */
  function CeabAsWritten(labels: seq<Option<string>>, data: seq<Option<string>>, acc: map<string, int>): (r: Result<map<string, int>>)
    ensures r.Err? ==> r.exc == IndexError || r.exc == AttributeError
    decreases |labels|
  {
    if labels == [] then Ok(acc)
    else
      var n := |labels| - 1;
      match CeabAsWritten(labels[..n], data, acc)
      case Err(e) => Err(e)
      case Ok(m) =>
        if n >= |data| then Err(IndexError)
        else if data[n].None? then Err(AttributeError)
        else Ok(Store(m, labels[n], CeabCell(data[n])))
  }

  /** The loop as written succeeds exactly when every label has a cell and
      every such cell has text. */
  lemma {:induction false} CeabAsWrittenSucceeds(labels: seq<Option<string>>, data: seq<Option<string>>, acc: map<string, int>)
    ensures CeabAsWritten(labels, data, acc).Ok? <==> |labels| <= |data| && forall x :: 0 <= x < |labels| ==> data[x].Some?
    decreases |labels|
  {
    if labels != [] {
      var n := |labels| - 1;
      CeabAsWrittenSucceeds(labels[..n], data, acc);
      CeabAsWrittenStep(labels, data, acc);
      assert |labels[..n]| == n;
      CellsWithTextStep(data, n);
    }
  }

  lemma CellsWithTextStep(data: seq<Option<string>>, n: nat)
    ensures (n + 1 <= |data| && forall x :: 0 <= x < n + 1 ==> data[x].Some?)
            <==> (n <= |data| && (forall x :: 0 <= x < n ==> data[x].Some?) && n < |data| && data[n].Some?)
  {
  }

  /** One turn of the loop as written succeeds when the turns before it
      did and the label's cell exists and has text. */
  lemma CeabAsWrittenStep(labels: seq<Option<string>>, data: seq<Option<string>>, acc: map<string, int>)
    requires labels != []
    ensures var n := |labels| - 1;
            CeabAsWritten(labels, data, acc).Ok?
            <==> CeabAsWritten(labels[..n], data, acc).Ok? && n < |data| && data[n].Some?
  {
  }

  /** Where every cell has text the two loops agree. */
  lemma {:induction false} CeabAgrees(labels: seq<Option<string>>, data: seq<Option<string>>, acc: map<string, int>)
    requires |labels| <= |data| && forall x :: 0 <= x < |labels| ==> data[x].Some?
    ensures CeabAsWritten(labels, data, acc) == Ceab(labels, data, acc)
    decreases |labels|
  {
    if labels != [] {
      CeabAgrees(labels[..|labels| - 1], data, acc);
    }
  }

  /** A CEAB row whose value cell is empty (no text child) stops the
      course's parse with AttributeError, where 0 was meant. */
  lemma CeabEmptyCellRaises()
    ensures CeabAsWritten([Some("Math:")], [None], map[]) == Err(AttributeError)
    ensures Ceab([Some("Math:")], [None], map[]) == Ok(map["Math" := 0])
  {
    assert [Some("Math:")][..0] == [];
    assert CeabKey("Math:") == "Math";
  }

  // ------------------------------------------------------------------
  // Course components
  // ------------------------------------------------------------------

  const COURSE_COMPS := "Course Components"

  const KEYMAP: map<string, string> := map[
    "Career" := "career",
    "Typically Offered" := "typically_offered",
    "Units" := "units",
    "Grading Basis" := "grading_basis",
    "Add Consent" := "add_consent",
    "Drop Consent" := "drop_consent",
    COURSE_COMPS := "course_components",
    "Enrollment Requirement" := "enrollment_requirement"]

  /** A data cell: its `.string` and its `get_text()`. */
  datatype Cell = Cell(str: Option<string>, text: string)

  /** A value under `extra`: a cell's text, or the components map. */
  datatype Extra = Text(s: string) | Components(kinds: map<Option<string>, string>)

  /** The components loop from cell `i`: cells i, i+2, ... name a kind and
      the cell after each gives its value; a kind without a value cell
      raises IndexError. A kind that repeats keeps its last value. */
  function ComponentMap(data: seq<Cell>, i: nat): (r: Result<map<Option<string>, string>>)
    ensures r.Ok? <==> i >= |data| || (|data| - i) % 2 == 0
    ensures r.Err? ==> r.exc == IndexError
    ensures r.Ok? ==> forall j :: i <= j < |data| && (j - i) % 2 == 0 ==> data[j].str in r.value
    decreases |data| - i
  {
    if i >= |data| then Ok(map[])
    else if i + 1 >= |data| then Err(IndexError)
    else
      match ComponentMap(data, i + 2)
      case Err(e) => Err(e)
      case Ok(m) =>
        Ok(map[data[i].str := data[i + 1].text] + m)
  }

  /** Every kind in the components map was read from a kind cell. */
  lemma {:induction false} ComponentMapKeys(data: seq<Cell>, i: nat, k: Option<string>)
    requires ComponentMap(data, i).Ok? && k in ComponentMap(data, i).value
    ensures exists j :: i <= j < |data| && (j - i) % 2 == 0 && data[j].str == k
    decreases |data| - i
  {
    var m := ComponentMap(data, i + 2).value;
    if data[i].str != k {
      assert k in m;
      ComponentMapKeys(data, i + 2, k);
      var j :| i + 2 <= j < |data| && (j - (i + 2)) % 2 == 0 && data[j].str == k;
      assert (j - i) % 2 == 0;
    }
  }

  /** A components table as the site writes it: kind, value, kind,
      value. */
  function ComponentCells(kinds: seq<(string, string)>): (r: seq<Cell>)
    ensures |r| == 2 * |kinds|
    decreases |kinds|
  {
    if kinds == [] then []
    else [Cell(Some(kinds[0].0), kinds[0].0), Cell(Some(kinds[0].1), kinds[0].1)] + ComponentCells(kinds[1..])
  }

  /** Reading a components table gives every kind with its value; when a
      kind repeats, the value of its last occurrence wins. */
  lemma {:induction false} ComponentMapOfCells(kinds: seq<(string, string)>, j: nat)
    requires j < |kinds|
    requires forall l :: j < l < |kinds| ==> kinds[l].0 != kinds[j].0
    ensures ComponentMap(ComponentCells(kinds), 0).Ok?
    ensures Some(kinds[j].0) in ComponentMap(ComponentCells(kinds), 0).value
    ensures ComponentMap(ComponentCells(kinds), 0).value[Some(kinds[j].0)] == kinds[j].1
    decreases j
  {
    var cells := ComponentCells(kinds);
    var tail := ComponentCells(kinds[1..]);
    assert cells[2..] == tail;
    ComponentMapShift(cells, tail, 2);
    var m := ComponentMap(tail, 0).value;
    assert ComponentMap(cells, 0).value == map[Some(kinds[0].0) := kinds[0].1] + m;
    if j > 0 {
      assert kinds[1..][j - 1] == kinds[j];
      assert forall l :: j - 1 < l < |kinds[1..]| ==> kinds[1..][l].0 != kinds[1..][j - 1].0;
      ComponentMapOfCells(kinds[1..], j - 1);
      assert Some(kinds[j].0) in m && m[Some(kinds[j].0)] == kinds[j].1;
      assert (map[Some(kinds[0].0) := kinds[0].1] + m)[Some(kinds[j].0)] == kinds[j].1;
    } else if Some(kinds[0].0) in m {
      ComponentMapKeys(tail, 0, Some(kinds[0].0));
      var jj :| 0 <= jj < |tail| && jj % 2 == 0 && tail[jj].str == Some(kinds[0].0);
      var k := jj / 2;
      assert 2 * k == jj;
      ComponentCellsAt(kinds[1..], k);
      assert false;
    } else {
      assert (map[Some(kinds[0].0) := kinds[0].1] + m)[Some(kinds[0].0)] == kinds[0].1;
    }
  }

  lemma {:induction false} ComponentCellsAt(kinds: seq<(string, string)>, k: nat)
    requires k < |kinds|
    ensures ComponentCells(kinds)[2 * k].str == Some(kinds[k].0)
    decreases k
  {
    if k > 0 {
      ComponentCellsAt(kinds[1..], k - 1);
      assert ComponentCells(kinds)[2 * k] == ComponentCells(kinds[1..])[2 * (k - 1)];
    }
  }

  /** Reading from cell `s` of a table is reading its tail. */
  lemma {:induction false} ComponentMapShift(data: seq<Cell>, tail: seq<Cell>, s: nat)
    requires s <= |data| && tail == data[s..]
    ensures ComponentMap(data, s) == ComponentMap(tail, 0)
    decreases |data| - s
  {
    if s + 2 <= |data| {
      ComponentMapShift(data, tail[2..], s + 2);
      assert tail[2..] == data[s + 2..];
      assert ComponentMap(tail[2..], 0) == ComponentMap(tail, 2) by {
        ComponentMapShift(tail, tail[2..], 2);
      }
    }
  }

  /** A label the detail loop stores text for. */
  predicate StoredLabel(l: Option<string>) {
    l.Some? && l.value in KEYMAP && l != Some(COURSE_COMPS)
  }

  /** Position of the first "Course Components" label at or after x, or
      the number of labels when there is none. */
  function FirstComponents(labels: seq<Option<string>>, x: nat): (stop: nat)
    ensures stop <= |labels|
    ensures x <= |labels| ==> x <= stop
    ensures forall y :: x <= y < stop ==> labels[y] != Some(COURSE_COMPS)
    ensures stop < |labels| ==> labels[stop] == Some(COURSE_COMPS)
    decreases |labels| - x
  {
    if x >= |labels| then |labels|
    else if labels[x] == Some(COURSE_COMPS) then x
    else FirstComponents(labels, x + 1)
  }

  /** When the detail loop from x returns normally: every stored label
      before the components label has a data cell, and the components
      table, if there is one, reads without error. */
  predicate DetailSucceeds(labels: seq<Option<string>>, data: seq<Cell>, x: nat) {
    var stop := FirstComponents(labels, x);
    && (forall y :: x <= y < stop && StoredLabel(labels[y]) ==> y < |data|)
    && (stop < |labels| ==> ComponentMap(data, stop).Ok?)
  }

  /** The editbox loop of the "Course Detail" box from label x: a label in
      `KEYMAP` stores its data cell's text, "Course Components" stores the
      components read from its own cell onwards and ends the loop, and any
      other label is skipped. */
  function DetailEditboxes(labels: seq<Option<string>>, data: seq<Cell>, x: nat, extra: map<string, Extra>): (r: Result<map<string, Extra>>)
    ensures r.Err? ==> r.exc == IndexError
    ensures r.Ok? ==> forall k :: k !in KEYMAP.Values ==> (k in r.value <==> k in extra)
    ensures r.Ok? ==> forall k :: k !in KEYMAP.Values && k in extra ==> r.value[k] == extra[k]
    ensures r.Ok? ==> forall k :: k in extra ==> k in r.value
    ensures x < |labels| && x >= |data| && StoredLabel(labels[x]) ==> r == Err(IndexError)
    ensures r.Ok? <==> DetailSucceeds(labels, data, x)
    decreases |labels| - x
  {
    if x >= |labels| then Ok(extra)
    else if labels[x] == Some(COURSE_COMPS) then
      match ComponentMap(data, x)
      case Err(e) => Err(e)
      case Ok(kinds) => Ok(extra[KEYMAP[COURSE_COMPS] := Components(kinds)])
    else if labels[x].Some? && labels[x].value in KEYMAP then
      if x >= |data| then Err(IndexError)
      else DetailEditboxes(labels, data, x + 1, extra[KEYMAP[labels[x].value] := Text(data[x].text)])
    else DetailEditboxes(labels, data, x + 1, extra)
  }

  /** The loop stops at "Course Components": labels after it are never
      read. */
  lemma {:induction false} DetailStopsAtComponents(labels: seq<Option<string>>, more: seq<Option<string>>, data: seq<Cell>, x: nat, extra: map<string, Extra>)
    requires x < |labels| && labels[|labels| - 1] == Some(COURSE_COMPS)
    ensures DetailEditboxes(labels + more, data, x, extra) == DetailEditboxes(labels, data, x, extra)
    decreases |labels| - x
  {
    assert (labels + more)[x] == labels[x];
    if x < |labels| - 1 && labels[x] != Some(COURSE_COMPS) {
      if labels[x].Some? && labels[x].value in KEYMAP && x < |data| {
        DetailStopsAtComponents(labels, more, data, x + 1, extra[KEYMAP[labels[x].value] := Text(data[x].text)]);
      } else if !(labels[x].Some? && labels[x].value in KEYMAP) {
        DetailStopsAtComponents(labels, more, data, x + 1, extra);
      }
    }
  }

  /** Distinct labels have distinct keys. */
  lemma KeymapInjective(a: string, b: string)
    requires a in KEYMAP && b in KEYMAP && a != b
    ensures KEYMAP[a] != KEYMAP[b]
  {
  }

  /** A key that no label from x on maps to keeps its value. */
  lemma {:induction false} DetailKeeps(labels: seq<Option<string>>, data: seq<Cell>, x: nat, extra: map<string, Extra>, key: string)
    requires key in extra
    requires forall y :: x <= y < |labels| && labels[y].Some? && labels[y].value in KEYMAP ==> KEYMAP[labels[y].value] != key
    ensures DetailEditboxes(labels, data, x, extra).Ok? ==> DetailEditboxes(labels, data, x, extra).value[key] == extra[key]
    decreases |labels| - x
  {
    if x < |labels| {
      if labels[x].Some? && labels[x].value in KEYMAP {
        if x < |data| {
          DetailKeeps(labels, data, x + 1, extra[KEYMAP[labels[x].value] := Text(data[x].text)], key);
        }
      } else {
        DetailKeeps(labels, data, x + 1, extra, key);
      }
    }
  }

  /** A label in `KEYMAP` with a data cell stores that cell's text under
      its key, when the same label does not come again (a repeated label
      keeps the text of its last cell). */
  lemma DetailStoresText(labels: seq<Option<string>>, data: seq<Cell>, x: nat, extra: map<string, Extra>)
    requires x < |labels| && x < |data|
    requires labels[x].Some? && labels[x].value in KEYMAP && labels[x] != Some(COURSE_COMPS)
    requires forall y :: x < y < |labels| ==> labels[y] != labels[x]
    ensures DetailEditboxes(labels, data, x, extra).Ok? ==>
              DetailEditboxes(labels, data, x, extra).value[KEYMAP[labels[x].value]] == Text(data[x].text)
  {
    var key := KEYMAP[labels[x].value];
    forall y | x + 1 <= y < |labels| && labels[y].Some? && labels[y].value in KEYMAP
      ensures KEYMAP[labels[y].value] != key
    {
      KeymapInjective(labels[y].value, labels[x].value);
    }
    DetailKeeps(labels, data, x + 1, extra[key := Text(data[x].text)], key);
  }

  /** A "Course Components" label stores the components table that starts
      at its own cell. */
  lemma ComponentsStored(labels: seq<Option<string>>, data: seq<Cell>, x: nat, extra: map<string, Extra>)
    requires x < |labels| && labels[x] == Some(COURSE_COMPS)
    requires ComponentMap(data, x).Ok?
    ensures DetailEditboxes(labels, data, x, extra) == Ok(extra["course_components" := Components(ComponentMap(data, x).value)])
  {
  }
}
