/** The meeting table of a section on the course page:
    `SolusParser.section_attrs_at_index` in parser.py. The table's cells
    reach the model as their `.string` values; the time and date cells are
    kept as their cleaned text (their `strptime` parsing is not modelled). */
module Meetings {
  import opened Py
  import opened Text
  import Parser

  // ------------------------------------------------------------------
  // Days of the week
  // ------------------------------------------------------------------

  const DAY_MAP: map<string, int> :=
    map["mo" := 1, "tu" := 2, "we" := 3, "th" := 4, "fr" := 5, "sa" := 6, "su" := 7]

  /** The day loop on an already lower-cased string: two characters are
      taken at a time from the end (one when a single character is left),
      and each chunk that names a day yields that day. */
  function Days(s: string): (r: seq<int>)
    ensures forall k :: 0 <= k < |r| ==> 1 <= r[k] <= 7
    ensures 2 * |r| <= |s| + 1
    decreases |s|
  {
    if |s| == 0 then []
    else
      var n := if |s| >= 2 then 2 else 1;
      var chunk := s[|s| - n..];
      (if chunk in DAY_MAP then [DAY_MAP[chunk]] else []) + Days(s[..|s| - n])
  }

  /** The days of a meeting row, from its raw days cell. */
  function DecodeDays(cell: string): (r: seq<int>)
    ensures forall k :: 0 <= k < |r| ==> 1 <= r[k] <= 7
    ensures 2 * |r| <= |cell| + 1
  {
    Days(Lower(cell))
  }

  /** How the site writes a day: "Mo", "Tu", ... "Su". */
  function DayAbbreviation(d: int): (r: string)
    requires 1 <= d <= 7
    ensures |r| == 2
  {
    if d == 1 then "Mo" else if d == 2 then "Tu" else if d == 3 then "We"
    else if d == 4 then "Th" else if d == 5 then "Fr" else if d == 6 then "Sa" else "Su"
  }

  predicate ValidDays(ds: seq<int>) {
    forall k :: 0 <= k < |ds| ==> 1 <= ds[k] <= 7
  }

  /** A days cell as the site writes it, e.g. "MoWeFr". */
  function EncodeDays(ds: seq<int>): (r: string)
    requires ValidDays(ds)
    ensures |r| == 2 * |ds|
    decreases |ds|
  {
    if ds == [] then "" else EncodeDays(ds[..|ds| - 1]) + DayAbbreviation(ds[|ds| - 1])
  }

  function Reverse<T>(xs: seq<T>): (r: seq<T>)
    ensures |r| == |xs|
    decreases |xs|
  {
    if xs == [] then [] else [xs[|xs| - 1]] + Reverse(xs[..|xs| - 1])
  }

  lemma LowerAppend(a: string, b: string)
    ensures Lower(a + b) == Lower(a) + Lower(b)
  {
  }

  lemma LowerAbbreviation(d: int)
    requires 1 <= d <= 7
    ensures Lower(DayAbbreviation(d)) in DAY_MAP && DAY_MAP[Lower(DayAbbreviation(d))] == d
  {
    var a := DayAbbreviation(d);
    assert Lower(a) == [LowerChar(a[0]), LowerChar(a[1])];
  }

  /** Decoding a days cell gives its days back, last day first: the loop
      consumes the cell from its end. */
  lemma {:induction false} DecodeDaysOfEncoding(ds: seq<int>)
    requires ValidDays(ds)
    ensures DecodeDays(EncodeDays(ds)) == Reverse(ds)
    decreases |ds|
  {
    if ds != [] {
      var init := ds[..|ds| - 1];
      var d := ds[|ds| - 1];
      var pre := Lower(EncodeDays(init));
      var chunk := Lower(DayAbbreviation(d));
      LowerAppend(EncodeDays(init), DayAbbreviation(d));
      var s := pre + chunk;
      assert s[|s| - 2..] == chunk;
      assert s[..|s| - 2] == pre;
      LowerAbbreviation(d);
      DecodeDaysOfEncoding(init);
    }
  }

  /** A cell of odd length is read out of step: "MoW" gives no day, where
      "Mo" was written. */
  lemma OddCellMisreads()
    ensures DecodeDays("MoW") == []
  {
    assert Lower("MoW") == "mow";
    assert "mow"[1..] == "ow" && "mow"[..1] == "m";
    assert "ow" !in DAY_MAP && "m" !in DAY_MAP;
    assert "m"[0..] == "m" && "m"[..0] == "";
  }

  // ------------------------------------------------------------------
  // Instructors
  // ------------------------------------------------------------------

  const NON_INSTRUCTORS: seq<string> := ["TBA", "Staff"]

  /** An instructor's name as the two comma-separated pieces of the cell
      it came from. */
  datatype Name = Name(last: string, other: string)

  /** The name a meeting lists: "last, other", each piece stripped. */
  function FullName(n: Name): (r: string)
    ensures Trimmed(n.last) && Trimmed(n.other) ==> r == n.last + ", " + n.other
  {
    Strip(n.last) + ", " + Strip(n.other)
  }

  function FullNames(ns: seq<Name>): (r: seq<string>)
    ensures |r| == |ns|
    ensures forall k :: 0 <= k < |ns| ==> r[k] == FullName(ns[k])
  {
    seq(|ns|, k requires 0 <= k < |ns| => FullName(ns[k]))
  }

  /** `for i in range(0, len(lis), 2)`: consecutive pieces make one name;
      an odd count raises IndexError at the last piece. Which pieces make
      name k is stated by `PairUpAt`. */
  function PairUp(lis: seq<string>): (r: Result<seq<Name>>)
    ensures r.Ok? <==> |lis| % 2 == 0
    ensures r.Err? ==> r.exc == IndexError
    ensures r.Ok? ==> 2 * |r.value| == |lis|
    decreases |lis|
  {
    if |lis| == 0 then Ok([])
    else if |lis| == 1 then Err(IndexError)
    else
      match PairUp(lis[2..])
      case Err(e) => Err(e)
      case Ok(rest) => Ok([Name(lis[0], lis[1])] + rest)
  }

  /** Name k is made of pieces 2k and 2k+1. */
  lemma {:induction false} PairUpAt(lis: seq<string>, k: nat)
    requires PairUp(lis).Ok? && k < |PairUp(lis).value|
    ensures PairUp(lis).value[k] == Name(lis[2 * k], lis[2 * k + 1])
    decreases k
  {
    if k > 0 {
      var tail := lis[2..];
      PairUpAt(tail, k - 1);
      var rest := PairUp(tail).value;
      assert PairUp(lis).value == [Name(lis[0], lis[1])] + rest;
      assert PairUp(lis).value[k] == rest[k - 1];
      assert tail[2 * (k - 1)] == lis[2 * k];
      assert tail[2 * (k - 1) + 1] == lis[2 * k + 1];
    }
  }

  /** `"{0}, {1}".format(last_name, other_names)`: the template is a byte
      string and the stripped pieces are `unicode`, so Python 2 encodes
      them as ASCII and raises UnicodeEncodeError on any other character. */
  function FormatName(n: Name): (r: Result<string>)
    ensures r.Ok? <==> Encodes(n.last) && Encodes(n.other)
    ensures r.Err? ==> r.exc == UnicodeEncodeError
    ensures r.Ok? ==> r.value == FullName(n)
  {
    if Encodes(n.last) && Encodes(n.other) then Ok(FullName(n)) else Err(UnicodeEncodeError)
  }

  /** A piece the format can take: stripped, it is ASCII text. */
  predicate Encodes(piece: string) {
    Ascii(Strip(piece))
  }

  /** How many pieces belong to a complete pair. */
  function Paired(lis: seq<string>): (n: nat)
    ensures n <= |lis| && n % 2 == 0 && |lis| - n < 2
  {
    |lis| - |lis| % 2
  }

  /** Every piece that belongs to a complete pair encodes. */
  predicate PairsEncode(lis: seq<string>) {
    forall k :: 0 <= k < Paired(lis) ==> Encodes(lis[k])
  }

  /** The loop `for i in range(0, len(lis), 2)`, pair by pair: a complete
      pair is formatted (or raises UnicodeEncodeError), and a last piece
      without a partner raises IndexError at `lis[i+1]`. The first failure
      decides, so a non-ASCII name anywhere before an odd last piece wins.
      When it fails is stated by `FormatNamesSucceeds`, what it gives by
      `FormatNamesValue`. */
  function FormatNames(lis: seq<string>): (r: Result<seq<string>>)
    ensures r.Err? ==> r.exc == IndexError || r.exc == UnicodeEncodeError
    ensures r.Ok? ==> 2 * |r.value| == |lis|
    decreases |lis|
  {
    if |lis| == 0 then Ok([])
    else if |lis| == 1 then Err(IndexError)
    else
      match FormatName(Name(lis[0], lis[1]))
      case Err(e) => Err(e)
      case Ok(first) =>
        match FormatNames(lis[2..])
        case Err(e) => Err(e)
        case Ok(rest) => Ok([first] + rest)
  }

  /** The first pair and the rest. */
  lemma PairsEncodeStep(lis: seq<string>)
    requires |lis| >= 2
    ensures PairsEncode(lis) <==> Encodes(lis[0]) && Encodes(lis[1]) && PairsEncode(lis[2..])
  {
    assert Paired(lis[2..]) == Paired(lis) - 2;
    assert forall k :: 2 <= k < |lis| ==> lis[k] == lis[2..][k - 2];
  }

  /** One turn of the loop: the first pair is formatted, then the rest. */
  lemma FormatNamesTurn(lis: seq<string>)
    requires |lis| >= 2
    ensures !(Encodes(lis[0]) && Encodes(lis[1])) ==> FormatNames(lis) == Err(UnicodeEncodeError)
    ensures Encodes(lis[0]) && Encodes(lis[1]) ==>
              (FormatNames(lis).Ok? <==> FormatNames(lis[2..]).Ok?)
              && (FormatNames(lis).Err? ==> FormatNames(lis) == FormatNames(lis[2..]))
  {
  }

  /** Two more pieces keep the parity. */
  lemma ParityStep(n: nat, m: nat)
    requires n == m + 2
    ensures n % 2 == m % 2
  {
  }

  /** The loop finishes exactly when the pieces pair up and every paired
      piece encodes. */
  lemma {:induction false} FormatNamesSucceeds(lis: seq<string>)
    ensures FormatNames(lis).Ok? <==> |lis| % 2 == 0 && PairsEncode(lis)
    decreases |lis|
  {
    if |lis| == 1 {
      assert FormatNames(lis).Err?;
    } else if |lis| >= 2 {
      var tail := lis[2..];
      var h := Encodes(lis[0]) && Encodes(lis[1]);
      PairsEncodeStep(lis);
      FormatNamesTurn(lis);
      FormatNamesSucceeds(tail);
      ParityStep(|lis|, |tail|);
      if h {
        assert FormatNames(lis).Ok? <==> FormatNames(tail).Ok?;
        assert PairsEncode(lis) <==> PairsEncode(tail);
      } else {
        assert !FormatNames(lis).Ok?;
        assert !PairsEncode(lis);
      }
    }
  }

  /** The loop raises UnicodeEncodeError exactly when some paired piece
      does not encode, even when an odd last piece follows; otherwise a
      failure is the IndexError of that last piece. */
  lemma {:induction false} FormatNamesEncodeError(lis: seq<string>)
    ensures FormatNames(lis) == Err(UnicodeEncodeError) <==> !PairsEncode(lis)
    decreases |lis|
  {
    if |lis| >= 2 {
      PairsEncodeStep(lis);
      FormatNamesTurn(lis);
      FormatNamesEncodeError(lis[2..]);
    }
  }

  /** What the loop gives: each pair of pieces as "last, other". */
  lemma {:induction false} FormatNamesValue(lis: seq<string>)
    requires FormatNames(lis).Ok?
    ensures PairUp(lis).Ok? && FormatNames(lis).value == FullNames(PairUp(lis).value)
    decreases |lis|
  {
    if |lis| >= 2 {
      var tail := lis[2..];
      var n := Name(lis[0], lis[1]);
      FormatNamesTurn(lis);
      FormatNamesValue(tail);
      var ns := PairUp(tail).value;
      assert PairUp(lis).value == [n] + ns;
      assert FormatNames(lis).value == [FullName(n)] + FormatNames(tail).value;
      FullNamesCons(n, ns);
    }
  }

  lemma FullNamesCons(n: Name, ns: seq<Name>)
    ensures FullNames([n] + ns) == [FullName(n)] + FullNames(ns)
  {
    var l := FullNames([n] + ns);
    var r := [FullName(n)] + FullNames(ns);
    forall k | 0 <= k < |l|
      ensures l[k] == r[k]
    {
      if k > 0 {
        assert ([n] + ns)[k] == ns[k - 1];
      }
    }
  }

  /** The instructors of a meeting row from its instructor cell's
      `.string`: none for a missing, empty, "TBA" or "Staff" cell;
      otherwise whitespace runs collapse to one space, the text is split on
      ',' and the pieces are formatted pair by pair. When it fails is
      stated by `InstructorsSucceeds`. */
  function Instructors(cell: Option<string>): (r: Result<seq<string>>)
    ensures !TruthyText(cell) || cell.value in NON_INSTRUCTORS ==> r == Ok([])
    ensures r.Err? ==> r.exc == IndexError || r.exc == UnicodeEncodeError
  {
    if TruthyText(cell) && cell.value !in NON_INSTRUCTORS then
      FormatNames(Split(CollapseSpaces(cell.value), ','))
    else Ok([])
  }

  /** A named cell parses exactly when its comma-separated pieces pair up
      and every paired piece strips to ASCII; it raises UnicodeEncodeError
      exactly when some paired piece does not; and it gives the pairs as
      "last, other". */
  lemma InstructorsSucceeds(cell: Option<string>)
    requires TruthyText(cell) && cell.value !in NON_INSTRUCTORS
    ensures var lis := Split(CollapseSpaces(cell.value), ',');
            (Instructors(cell).Ok? <==> |lis| % 2 == 0 && PairsEncode(lis))
            && (Instructors(cell) == Err(UnicodeEncodeError) <==> !PairsEncode(lis))
            && (Instructors(cell).Ok? ==> PairUp(lis).Ok? && Instructors(cell).value == FullNames(PairUp(lis).value))
  {
    var lis := Split(CollapseSpaces(cell.value), ',');
    FormatNamesSucceeds(lis);
    FormatNamesEncodeError(lis);
    if FormatNames(lis).Ok? {
      FormatNamesValue(lis);
    }
  }

  /** "\U{e9}" (an accented letter) strips to itself and does not encode. */
  lemma AccentDoesNotEncode()
    ensures !Encodes("\U{e9}")
  {
    assert Strip("\U{e9}") == "\U{e9}";
  }

  /** A cell whose pieces are `lis` and whose first piece does not encode
      raises UnicodeEncodeError, however many pieces follow. */
  lemma FirstPieceRaises(lis: seq<string>)
    requires |lis| >= 2 && !Encodes(lis[0])
    requires forall k :: 0 <= k < |lis| ==> ',' !in lis[k] && forall j :: 0 <= j < |lis[k]| ==> !IsRegexSpace(lis[k][j])
    ensures Instructors(Some(Join(lis, ','))) == Err(UnicodeEncodeError)
  {
    var t := Join(lis, ',');
    JoinKeepsNoSpace(lis, ',');
    assert CollapseSpaces(t) == t;
    SplitJoin(lis, ',');
    JoinHasSeparator(lis, ',');
    assert ',' !in "TBA" && ',' !in "Staff";
    assert TruthyText(Some(t)) && t !in NON_INSTRUCTORS;
    InstructorsSucceeds(Some(t));
    PairedCoversFirst(lis);
    assert !PairsEncode(lis);
  }

  /** With two pieces or more, the first piece belongs to a pair. */
  lemma PairedCoversFirst(lis: seq<string>)
    requires |lis| >= 2
    ensures 0 < Paired(lis)
  {
  }

  /** A name outside ASCII raises: "\U{e9},x" gives UnicodeEncodeError,
      and so does "\U{e9},x,y", whose odd last piece is never reached. */
  lemma NonAsciiNameRaises()
    ensures Instructors(Some("\U{e9},x")) == Err(UnicodeEncodeError)
    ensures Instructors(Some("\U{e9},x,y")) == Err(UnicodeEncodeError)
  {
    var e := "\U{e9}";
    AccentDoesNotEncode();
    var two := [e, "x"];
    var three := [e, "x", "y"];
    assert Join(two, ',') == "\U{e9},x";
    assert three[1..] == ["x", "y"] && Join(["x", "y"], ',') == "x,y";
    assert Join(three, ',') == "\U{e9},x,y";
    FirstPieceRaises(two);
    FirstPieceRaises(three);
  }

  /** The pieces a cell lists for some names: last, other, last, other... */
  function NamePieces(names: seq<Name>): (r: seq<string>)
    ensures |r| == 2 * |names|
    decreases |names|
  {
    if names == [] then [] else [names[0].last, names[0].other] + NamePieces(names[1..])
  }

  /** A name part as the site prints it in an instructor cell. */
  predicate PlainPart(p: string) {
    |p| > 0 && Trimmed(p) && Ascii(p) && ',' !in p && forall k :: 0 <= k < |p| ==> !IsRegexSpace(p[k])
  }

  lemma {:induction false} NamePiecesIndex(names: seq<Name>, k: nat)
    requires k < |names|
    ensures NamePieces(names)[2 * k] == names[k].last && NamePieces(names)[2 * k + 1] == names[k].other
    decreases k
  {
    if k > 0 {
      NamePiecesIndex(names[1..], k - 1);
      assert NamePieces(names)[2 * k] == NamePieces(names[1..])[2 * (k - 1)];
      assert NamePieces(names)[2 * k + 1] == NamePieces(names[1..])[2 * (k - 1) + 1];
    }
  }

  /** Pairing the pieces of some names gives the names back. */
  lemma {:induction false} PairUpOfPieces(names: seq<Name>)
    ensures PairUp(NamePieces(names)) == Ok(names)
    decreases |names|
  {
    if names != [] {
      var ps := NamePieces(names);
      assert ps[2..] == NamePieces(names[1..]);
      PairUpOfPieces(names[1..]);
      assert names == [Name(names[0].last, names[0].other)] + names[1..];
    }
  }

  lemma {:induction false} PiecesPlain(names: seq<Name>)
    requires forall k :: 0 <= k < |names| ==> PlainPart(names[k].last) && PlainPart(names[k].other)
    ensures forall i :: 0 <= i < |NamePieces(names)| ==> PlainPart(NamePieces(names)[i])
    decreases |names|
  {
    if names != [] {
      PiecesPlain(names[1..]);
      var ps := NamePieces(names);
      forall i | 2 <= i < |ps|
        ensures PlainPart(ps[i])
      {
        assert ps[i] == NamePieces(names[1..])[i - 2];
      }
    }
  }

  lemma {:induction false} JoinKeepsNoSpace(xs: seq<string>, sep: char)
    requires |xs| >= 1 && !IsRegexSpace(sep)
    requires forall k, j :: 0 <= k < |xs| && 0 <= j < |xs[k]| ==> !IsRegexSpace(xs[k][j])
    ensures forall j :: 0 <= j < |Join(xs, sep)| ==> !IsRegexSpace(Join(xs, sep)[j])
    decreases |xs|
  {
    if |xs| > 1 {
      JoinKeepsNoSpace(xs[1..], sep);
      var t := Join(xs[1..], sep);
      forall j | 0 <= j < |Join(xs, sep)|
        ensures !IsRegexSpace(Join(xs, sep)[j])
      {
        if j < |xs[0]| {
          assert Join(xs, sep)[j] == xs[0][j];
        } else if j > |xs[0]| {
          assert Join(xs, sep)[j] == t[j - |xs[0]| - 1];
        }
      }
    }
  }

  /** A join of two or more pieces contains the separator. */
  lemma JoinHasSeparator(xs: seq<string>, sep: char)
    requires |xs| >= 2
    ensures sep in Join(xs, sep)
  {
    assert Join(xs, sep) == xs[0] + [sep] + Join(xs[1..], sep);
    assert Join(xs, sep)[|xs[0]|] == sep;
  }

  /** The cell the site writes for some names, "Last,Other,...", has no
      whitespace to collapse... */
  lemma NamesCellCollapses(names: seq<Name>)
    requires |names| > 0
    requires forall k :: 0 <= k < |names| ==> PlainPart(names[k].last) && PlainPart(names[k].other)
    ensures CollapseSpaces(Join(NamePieces(names), ',')) == Join(NamePieces(names), ',')
  {
    PiecesPlain(names);
    JoinKeepsNoSpace(NamePieces(names), ',');
  }

  /** ...splits back into its pieces... */
  lemma NamesCellSplits(names: seq<Name>)
    requires |names| > 0
    requires forall k :: 0 <= k < |names| ==> PlainPart(names[k].last) && PlainPart(names[k].other)
    ensures Split(Join(NamePieces(names), ','), ',') == NamePieces(names)
  {
    PiecesPlain(names);
    SplitJoin(NamePieces(names), ',');
  }

  /** ...and is not one of the placeholders. */
  lemma NamesCellNamed(names: seq<Name>)
    requires |names| > 0
    ensures TruthyText(Some(Join(NamePieces(names), ',')))
    ensures Join(NamePieces(names), ',') !in NON_INSTRUCTORS
  {
    JoinHasSeparator(NamePieces(names), ',');
    assert ',' !in "TBA" && ',' !in "Staff";
  }

  /** Writing names into a cell the way the site does and parsing the cell
      gives each name back as "last, other". */
  lemma InstructorsOfNames(names: seq<Name>)
    requires |names| > 0
    requires forall k :: 0 <= k < |names| ==> PlainPart(names[k].last) && PlainPart(names[k].other)
    ensures Instructors(Some(Join(NamePieces(names), ','))) == Ok(FullNames(names))
    ensures forall k :: 0 <= k < |names| ==> FullNames(names)[k] == names[k].last + ", " + names[k].other
  {
    NamesCellCollapses(names);
    NamesCellSplits(names);
    NamesCellNamed(names);
    PairUpOfPieces(names);
    var ps := NamePieces(names);
    PiecesPlain(names);
    forall k | 0 <= k < Paired(ps)
      ensures Encodes(ps[k])
    {
      assert PlainPart(ps[k]);
    }
    InstructorsSucceeds(Some(Join(ps, ',')));
  }

  // ------------------------------------------------------------------
  // Meeting rows
  // ------------------------------------------------------------------

  /** One record of `section_attrs_at_index`. The times and dates are the
      cleaned cell text they would be parsed from. */
  datatype Meeting = Meeting(
    dayOfWeek: int,
    startTime: string,
    endTime: string,
    location: string,
    instructors: seq<string>,
    dates: string)

  /** The records of one group of five cells (days, start, end, location,
      dates): one per day, in the order the day loop finds them. */
  function GroupMeetings(group: seq<string>, instructors: seq<string>): (r: seq<Meeting>)
    requires |group| == 5
    ensures |r| == |DecodeDays(group[0])|
    ensures forall k :: 0 <= k < |r| ==>
              r[k].dayOfWeek == DecodeDays(group[0])[k] && r[k].location == group[3]
              && r[k].startTime == group[1] && r[k].endTime == group[2] && r[k].dates == group[4]
              && r[k].instructors == instructors
  {
    var days := DecodeDays(group[0]);
    seq(|days|, k requires 0 <= k < |days| => Meeting(days[k], group[1], group[2], group[3], instructors, group[4]))
  }

  /** The loop over groups of five values: group g reads instructor cell g
      (`x//5` for `x = 5g`), any missing cell raises IndexError, and an
      instructor cell that fails passes its exception on. */
  function Groups(values: seq<string>, inst: seq<Option<string>>): (r: Result<seq<seq<Meeting>>>)
    ensures r.Err? ==> r.exc == IndexError || r.exc == UnicodeEncodeError
    ensures r.Ok? ==> 5 * |r.value| == |values| && |r.value| <= |inst|
    ensures r.Ok? ==> forall g :: 0 <= g < |r.value| ==>
              Instructors(inst[g]).Ok?
              && r.value[g] == GroupMeetings(values[5 * g..5 * g + 5], Instructors(inst[g]).value)
    decreases |values|
  {
    if |values| == 0 then Ok([])
    else if |inst| == 0 then Err(IndexError)
    else
      match Instructors(inst[0])
      case Err(e) => Err(e)
      case Ok(names) =>
        if |values| < 5 then Err(IndexError)
        else
          match Groups(values[5..], inst[1..])
          case Err(e) => Err(e)
          case Ok(rest) =>
            GroupSlices(values);
            Ok([GroupMeetings(values[..5], names)] + rest)
  }

  /** Group g of the values is group g - 1 of the values after the first
      group. */
  lemma GroupSlices(values: seq<string>)
    requires |values| >= 5
    ensures forall g :: 1 <= g && 5 * g + 5 <= |values| ==>
              values[5 * g..5 * g + 5] == values[5..][5 * (g - 1)..5 * (g - 1) + 5]
  {
    forall g | 1 <= g && 5 * g + 5 <= |values|
      ensures values[5 * g..5 * g + 5] == values[5..][5 * (g - 1)..5 * (g - 1) + 5]
    {
      var i := 5 * (g - 1);
      assert i + 5 == 5 * g;
      SliceOfSlice(values, 5, |values|, i, i + 5);
    }
  }

  /** The loop fails exactly when the values do not fill whole groups, an
      instructor cell is missing for a group, or a group's instructor cell
      fails to parse. */
  lemma {:induction false} GroupsSucceed(values: seq<string>, inst: seq<Option<string>>)
    ensures Groups(values, inst).Ok? <==>
              |values| % 5 == 0 && |values| <= 5 * |inst|
              && forall g :: 0 <= g < |inst| && 5 * g < |values| ==> Instructors(inst[g]).Ok?
    decreases |values|
  {
    if |values| == 0 || |inst| == 0 {
    } else if Instructors(inst[0]).Err? {
      assert Groups(values, inst).Err?;
      assert 5 * 0 < |values|;
    } else if |values| < 5 {
      assert Groups(values, inst).Err?;
    } else {
      assert Groups(values, inst).Ok? <==> Groups(values[5..], inst[1..]).Ok?;
      GroupsSucceed(values[5..], inst[1..]);
      CellsParseStep(values, inst);
      FiveStep(|values|, |values[5..]|);
      assert |values| <= 5 * |inst| <==> |values[5..]| <= 5 * |inst[1..]|;
    }
  }

  /** One more group keeps the remainder by five. */
  lemma FiveStep(n: nat, m: nat)
    requires n == m + 5
    ensures n % 5 == m % 5
  {
  }

  /** The instructor cells of the groups parse iff the first one does and
      those of the remaining groups do. */
  lemma CellsParseStep(values: seq<string>, inst: seq<Option<string>>)
    requires |values| >= 5 && |inst| >= 1
    ensures (forall g :: 0 <= g < |inst| && 5 * g < |values| ==> Instructors(inst[g]).Ok?)
            <==> Instructors(inst[0]).Ok?
                 && forall g :: 0 <= g < |inst[1..]| && 5 * g < |values[5..]| ==> Instructors(inst[1..][g]).Ok?
  {
    if forall g :: 0 <= g < |inst[1..]| && 5 * g < |values[5..]| ==> Instructors(inst[1..][g]).Ok? {
      forall g | 1 <= g < |inst| && 5 * g < |values|
        ensures Instructors(inst[g]).Ok?
      {
        assert inst[1..][g - 1] == inst[g];
      }
    }
    if forall g :: 0 <= g < |inst| && 5 * g < |values| ==> Instructors(inst[g]).Ok? {
      forall g | 0 <= g < |inst[1..]| && 5 * g < |values[5..]|
        ensures Instructors(inst[1..][g]).Ok?
      {
        assert inst[1..][g] == inst[g + 1];
      }
    }
  }

  function Concat<T>(xss: seq<seq<T>>): seq<T>
    decreases |xss|
  {
    if xss == [] then [] else xss[0] + Concat(xss[1..])
  }

  lemma {:induction false} ConcatDays(xss: seq<seq<Meeting>>)
    requires forall g, k :: 0 <= g < |xss| && 0 <= k < |xss[g]| ==> 1 <= xss[g][k].dayOfWeek <= 7
    ensures forall k :: 0 <= k < |Concat(xss)| ==> 1 <= Concat(xss)[k].dayOfWeek <= 7
    decreases |xss|
  {
    if xss != [] {
      ConcatDays(xss[1..]);
      var c := Concat(xss);
      forall k | 0 <= k < |c|
        ensures 1 <= c[k].dayOfWeek <= 7
      {
        if k >= |xss[0]| {
          assert c[k] == Concat(xss[1..])[k - |xss[0]|];
        }
      }
    }
  }

  const CELL_ERROR := "Invalid section index passed to `section_info_at_index`"

  /** No cell lacks its `.string`. */
  predicate AllPresent(cells: seq<Option<string>>) {
    forall k :: 0 <= k < |cells| ==> cells[k].Some?
  }

  /** The values list: every cell's `.string`, cleaned. */
  function CleanCells(cells: seq<Option<string>>): (values: seq<string>)
    requires AllPresent(cells)
    ensures |values| == |cells|
    ensures forall k :: 0 <= k < |cells| ==> values[k] == Parser.Clean(cells[k].value)
  {
    seq(|cells|, k requires 0 <= k < |cells| => Parser.Clean(cells[k].value))
  }

  /** `section_attrs_at_index(index)`: raises when the section's table is
      not on the page, AttributeError when a cell has no `.string` (it is
      cleaned before the loop), and otherwise returns the records of every
      group in order. */
  function SectionAttrsAtIndex(tableFound: bool, cells: seq<Option<string>>, inst: seq<Option<string>>): (r: Result<seq<Meeting>>)
    ensures !tableFound ==> r == Err(Exception(CELL_ERROR))
    ensures tableFound && (exists k :: 0 <= k < |cells| && cells[k].None?) ==> r == Err(AttributeError)
    ensures r.Ok? <==>
              tableFound && AllPresent(cells) && |cells| % 5 == 0 && |cells| <= 5 * |inst|
              && forall g :: 0 <= g < |inst| && 5 * g < |cells| ==> Instructors(inst[g]).Ok?
    ensures r.Err? ==> r.exc in {Exception(CELL_ERROR), AttributeError, IndexError, UnicodeEncodeError}
    ensures r.Ok? ==> AllPresent(cells) && Groups(CleanCells(cells), inst).Ok? && r.value == Concat(Groups(CleanCells(cells), inst).value)
    ensures r.Ok? ==> forall k :: 0 <= k < |r.value| ==> 1 <= r.value[k].dayOfWeek <= 7
  {
    if !tableFound then Err(Exception(CELL_ERROR))
    else if !AllPresent(cells) then Err(AttributeError)
    else
      var values := CleanCells(cells);
      GroupsSucceed(values, inst);
      match Groups(values, inst)
      case Err(e) => Err(e)
      case Ok(rows) =>
        forall g, k | 0 <= g < |rows| && 0 <= k < |rows[g]|
          ensures 1 <= rows[g][k].dayOfWeek <= 7
        {
          assert rows[g][k].dayOfWeek == DecodeDays(values[5 * g..5 * g + 5][0])[k];
        }
        ConcatDays(rows);
        Ok(Concat(rows))
  }

  /** A table of one row: its meetings are the meetings of that row, with
      the cleaned cells and the parsed instructor cell. */
  lemma SectionOfOneRow(cells: seq<Option<string>>, instCell: Option<string>)
    requires |cells| == 5 && AllPresent(cells)
    requires Instructors(instCell).Ok?
    ensures SectionAttrsAtIndex(true, cells, [instCell])
            == Ok(GroupMeetings(CleanCells(cells), Instructors(instCell).value))
  {
    var values := CleanCells(cells);
    var row := GroupMeetings(values[..5], Instructors(instCell).value);
    assert values[..5] == values;
    assert |values[5..]| == 0;
    assert Groups(values[5..], [instCell][1..]) == Ok([]);
    assert [instCell][0] == instCell;
    assert [row] + [] == [row];
    assert Groups(values, [instCell]) == Ok([row]);
    assert [row][1..] == [];
    assert Concat([row]) == row;
    assert SectionAttrsAtIndex(true, cells, [instCell]).Ok?;
  }
}
