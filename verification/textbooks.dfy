/** textbooks.py: the campus bookstore scraper's field rules. A book page
    is a run of listing blocks `ctl00, ctl02, …`; each block's spans give
    the title, authors, status, both ISBNs, new and used prices and
    availabilities and a classifieds note, and the scraper turns them into
    a record that is written only when it has an ISBN. */
module Textbooks {
  import opened Py
  import opened Text

  // ------------------------------------------------------------------
  // num_available: r"\((\d+)"
  // ------------------------------------------------------------------

  /** Length of the run of ASCII digits that starts `s`. */
  function DigitRun(s: string): (n: nat)
    ensures n <= |s| && AllDigits(s[..n])
    ensures n < |s| ==> !IsDigit(s[n])
    decreases |s|
  {
    if |s| > 0 && IsDigit(s[0]) then
      var n := 1 + DigitRun(s[1..]);
      assert s[..n] == [s[0]] + s[1..][..n - 1];
      n
    else 0
  }

  /** `\(\d` matches at position i. */
  predicate ParenDigitAt(s: string, i: int) {
    0 <= i && i + 1 < |s| && s[i] == '(' && IsDigit(s[i + 1])
  }

  /** The leftmost position at or after i where `\(\d` matches. */
  function FindParenDigit(s: string, i: nat): (r: Option<nat>)
    requires i <= |s|
    ensures r.Some? ==> i <= r.value && ParenDigitAt(s, r.value)
    ensures r.Some? ==> forall j :: i <= j < r.value ==> !ParenDigitAt(s, j)
    ensures r.None? ==> forall j :: i <= j ==> !ParenDigitAt(s, j)
    decreases |s| - i
  {
    if i + 1 >= |s| then None
    else if ParenDigitAt(s, i) then Some(i)
    else FindParenDigit(s, i + 1)
  }

  /** `num_available(s)`: the number right after the first '(' that is
      followed by a digit; 0 for an empty or missing text and for a text
      without such a number. */
  function NumAvailable(s: Option<string>): (r: nat)
    ensures !TruthyText(s) ==> r == 0
    ensures TruthyText(s) && (forall j :: !ParenDigitAt(s.value, j)) ==> r == 0
  {
    if !TruthyText(s) then 0
    else
      match FindParenDigit(s.value, 0)
      case None => 0
      case Some(i) =>
        var digits := s.value[i + 1..];
        DigitsValue(digits[..DigitRun(digits)])
  }

  /** Availability round trip: a count written in parentheses after text
      with no '(' is read back. */
  lemma NumAvailableOf(pre: string, n: nat, post: string)
    requires '(' !in pre
    requires post == [] || !IsDigit(post[0])
    ensures NumAvailable(Some(pre + "(" + NatToString(n) + post)) == n
  {
    var d := NatToString(n);
    var s := pre + "(" + d + post;
    assert ParenDigitAt(s, |pre|) by { assert s[|pre|] == '(' && s[|pre| + 1] == d[0]; }
    forall j | 0 <= j < |pre| ensures !ParenDigitAt(s, j) {
      assert s[j] == pre[j];
    }
    FindParenDigitFirst(s, 0, |pre|);
    var digits := s[|pre| + 1..];
    assert digits == d + post;
    DigitRunOf(d, post);
    assert digits[..|d|] == d;
    DigitsValueOfNatToString(n);
  }

  /** The search finds the first match. */
  lemma {:induction false} FindParenDigitFirst(s: string, i: nat, k: nat)
    requires i <= k && ParenDigitAt(s, k)
    requires forall j :: i <= j < k ==> !ParenDigitAt(s, j)
    ensures FindParenDigit(s, i) == Some(k)
    decreases k - i
  {
    if i < k {
      assert !ParenDigitAt(s, i);
      FindParenDigitFirst(s, i + 1, k);
    }
  }

  /** The digit run of a digit string followed by a non-digit is the digit
      string. */
  lemma {:induction false} DigitRunOf(d: string, post: string)
    requires AllDigits(d)
    requires post == [] || !IsDigit(post[0])
    ensures DigitRun(d + post) == |d|
    decreases |d|
  {
    if d == [] {
      assert d + post == post;
    } else {
      assert (d + post)[0] == d[0] && (d + post)[1..] == d[1..] + post;
      DigitRunOf(d[1..], post);
    }
  }

  // ------------------------------------------------------------------
  // price: r"(\$\d+\.\d{2})"
  // ------------------------------------------------------------------

  /** A price as the pattern spells it: '$', one or more digits, '.', two
      digits. */
  predicate IsPrice(p: string) {
    |p| >= 5 && p[0] == '$' && p[|p| - 3] == '.'
    && AllDigits(p[1..|p| - 3]) && IsDigit(p[|p| - 2]) && IsDigit(p[|p| - 1])
  }

  /** The length of the match of the price pattern at position i. `\d+`
      is greedy and '.' is not a digit, so the only candidate takes the
      whole digit run after the '$'. */
  function PriceAt(s: string, i: nat): (r: Option<nat>)
    requires i <= |s|
    ensures r.Some? ==> i + r.value <= |s| && IsPrice(s[i..i + r.value])
  {
    if i < |s| && s[i] == '$' then
      var d := DigitRun(s[i + 1..]);
      if d >= 1 && i + d + 3 < |s| && s[i + 1 + d] == '.' && IsDigit(s[i + 2 + d]) && IsDigit(s[i + 3 + d]) then
        PriceShape(s, i, d);
        Some(d + 4)
      else None
    else None
  }

  lemma PriceShape(s: string, i: nat, d: nat)
    requires i + d + 3 < |s| && s[i] == '$' && AllDigits(s[i + 1..][..d]) && d >= 1
    requires s[i + 1 + d] == '.' && IsDigit(s[i + 2 + d]) && IsDigit(s[i + 3 + d])
    ensures IsPrice(s[i..i + d + 4])
  {
    var p := s[i..i + d + 4];
    assert |p| == d + 4;
    SliceOfSlice(s, i, i + d + 4, 1, d + 1);
    SliceOfSlice(s, i + 1, |s|, 0, d);
    assert s[i + 1..] == s[i + 1..|s|];
    assert s[i + 1..][..d] == s[i + 1..|s|][0..d] == s[i + 1..i + 1 + d];
    assert p[1..|p| - 3] == p[1..d + 1] == s[i + 1..i + 1 + d];
    assert p[0] == s[i] && p[d + 1] == s[i + 1 + d] && p[d + 2] == s[i + 2 + d] && p[d + 3] == s[i + 3 + d];
  }

  /** The pattern matches at i with exactly the price-shaped substrings
      that start there: backtracking finds nothing the greedy reading
      misses. */
  lemma PriceAtExact(s: string, i: nat, len: nat)
    requires i + len <= |s|
    ensures IsPrice(s[i..i + len]) <==> PriceAt(s, i) == Some(len)
  {
    if IsPrice(s[i..i + len]) {
      var p := s[i..i + len];
      var tail := s[i + 1..];
      SliceOfSlice(s, i + 1, |s|, 0, len - 4);
      SliceOfSlice(s, i, i + len, 1, len - 3);
      assert tail == s[i + 1..|s|];
      assert tail[..len - 4] == s[i + 1..|s|][0..len - 4] == s[i + 1..i + len - 3];
      assert p[1..|p| - 3] == s[i..i + len][1..len - 3] == s[i + 1..i + len - 3];
      assert AllDigits(tail[..len - 4]);
      assert tail[len - 4] == s[i + len - 3] == p[len - 3];
      assert tail[len - 4] == p[len - 3];
      DigitRunExact(tail, len - 4);
    }
  }

  /** A run of n digits followed by a non-digit is the whole digit run. */
  lemma {:induction false} DigitRunExact(s: string, n: nat)
    requires n < |s| && AllDigits(s[..n]) && !IsDigit(s[n])
    ensures DigitRun(s) == n
    decreases n
  {
    if n > 0 {
      assert IsDigit(s[..n][0]);
      assert s[1..][..n - 1] == s[..n][1..];
      DigitRunExact(s[1..], n - 1);
    }
  }

  /** The leftmost price match at or after i, as a start and a length. */
  function FindPrice(s: string, i: nat): (r: Option<(nat, nat)>)
    requires i <= |s|
    ensures r.Some? ==> i <= r.value.0 <= |s| && PriceAt(s, r.value.0) == Some(r.value.1)
    ensures r.Some? ==> forall j :: i <= j < r.value.0 ==> PriceAt(s, j).None?
    ensures r.None? ==> forall j :: i <= j <= |s| ==> PriceAt(s, j).None?
    decreases |s| - i
  {
    match PriceAt(s, i)
    case Some(len) => Some((i, len))
    case None => if i == |s| then None else FindPrice(s, i + 1)
  }

  /** `price(s)`: the leftmost price in the text, verbatim; None for an
      empty or missing text and for a text without a price. */
  function Price(s: Option<string>): (r: Option<string>)
    ensures !TruthyText(s) ==> r.None?
    ensures r.Some? ==> IsPrice(r.value)
  {
    if !TruthyText(s) then None
    else
      match FindPrice(s.value, 0)
      case None => None
      case Some((i, len)) => Some(s.value[i..i + len])
  }

  /** Price round trip: a price after text with no '$' is returned as it
      stands, whatever follows it. */
  lemma PriceOf(pre: string, p: string, post: string)
    requires '$' !in pre && IsPrice(p)
    ensures Price(Some(pre + p + post)) == Some(p)
  {
    var s := pre + p + post;
    assert s[|pre|..|pre| + |p|] == p;
    PriceAtExact(s, |pre|, |p|);
    forall j | 0 <= j < |pre| ensures PriceAt(s, j).None? {
      assert s[j] == pre[j];
    }
    FindPriceFirst(s, 0, |pre|);
  }

  /** The first match at or after i is the one `FindPrice` reports. */
  lemma FindPriceFirst(s: string, i: nat, k: nat)
    requires i <= k <= |s| && PriceAt(s, k).Some?
    requires forall j :: i <= j < k ==> PriceAt(s, j).None?
    ensures FindPrice(s, i) == Some((k, PriceAt(s, k).value))
  {
  }

  // ------------------------------------------------------------------
  // Per-field rules
  // ------------------------------------------------------------------

  const NOT_AVAILABLE := "[N/A]"
  const BY := " by "
  const REQUIRED := "REQUIRED"

  /** An ISBN span: a text containing "[N/A]" becomes None, anything else
      is kept as it is. */
  function Isbn(s: Option<string>): (r: Option<string>)
    ensures r.None? <==> s.None? || Contains(s.value, NOT_AVAILABLE)
    ensures r.Some? ==> r == s
  {
    if TruthyText(s) && Contains(s.value, NOT_AVAILABLE) then None else s
  }

  lemma IsbnIdempotent(s: Option<string>)
    ensures Isbn(Isbn(s)) == Isbn(s)
  {
  }

  /** The author span: present only when it starts with " by ", which is
      removed. */
  function Byline(s: Option<string>): (r: Option<string>)
    ensures r.Some? <==> s.Some? && StartsWith(s.value, BY)
    ensures r.Some? ==> s.value == BY + r.value
  {
    if TruthyText(s) && |s.value| >= 4 && s.value[..4] == BY then Some(s.value[4..]) else None
  }

  /** Byline round trip. */
  lemma BylineOf(names: string)
    ensures Byline(Some(BY + names)) == Some(names)
  {
    assert (BY + names)[..4] == BY && (BY + names)[4..] == names;
  }

  /** The status span marks a required book when it mentions "REQUIRED"
      in any letter case. */
  function IsRequired(s: Option<string>): (r: bool)
    ensures r ==> TruthyText(s)
  {
    TruthyText(s) && Contains(Upper(s.value), REQUIRED)
  }

  /** The test ignores the case of the status text. */
  lemma RequiredIgnoresCase(s: string)
    ensures IsRequired(Some(Lower(s))) == IsRequired(Some(s)) == IsRequired(Some(Upper(s)))
  {
    assert Upper(Lower(s)) == Upper(s);
    assert Upper(Upper(s)) == Upper(s);
  }

  lemma RequiredOfStatus()
    ensures IsRequired(Some("Required"))
    ensures !IsRequired(Some("Recommended"))
  {
    var u := Upper("Required");
    assert u == REQUIRED;
    assert StartsWith(u[0..], REQUIRED);
    var v := Upper("Recommended");
    assert |v| == 11;
    forall i | 0 <= i <= |v| - |REQUIRED| ensures !StartsWith(v[i..], REQUIRED) {
      assert v[i + 2] != REQUIRED[2];
    }
  }

  // ------------------------------------------------------------------
  // Listing slots: ctl00, ctl02, …, ctl98
  // ------------------------------------------------------------------

  const ID_PREFIX := "ctl00_ContentBody_ctl00_CourseBooksRepeater_ctl"

  /** `"{:02d}".format(i)`. */
  function Pad2(i: nat): (r: string)
    requires i < 100
    ensures |r| == 2 && AllDigits(r) && DigitsValue(r) == i
  {
    if i < 10 then
      var r := ['0', DigitChar(i)];
      assert r[..1] == ['0'] && r[..1][..0] == [];
      assert DigitsValue(r[..1]) == 0;
      r
    else
      assert NatToString(i) == [DigitChar(i / 10)] + [DigitChar(i % 10)];
      DigitsValueOfNatToString(i);
      NatToString(i)
  }

  /** The element id of a field of listing block i. */
  function FieldId(i: nat, field: string): string
    requires i < 100
  {
    ID_PREFIX + Pad2(i) + "_test_" + field
  }

  function BookId(i: nat): string
    requires i < 100
  {
    FieldId(i, "ModeFull")
  }

  /** Different blocks have different ids for the same field. */
  lemma FieldIdsDistinct(i: nat, j: nat, field: string)
    requires i < 100 && j < 100 && FieldId(i, field) == FieldId(j, field)
    ensures i == j
  {
    var n := |ID_PREFIX|;
    assert FieldId(i, field)[n..n + 2] == Pad2(i);
    assert FieldId(j, field)[n..n + 2] == Pad2(j);
  }

  /** The blocks scanned from slot i: `range(0, 99, 2)` stops at the first
      slot whose block is missing. */
  function ScanSlots(present: string -> bool, i: nat): (r: seq<nat>)
    requires i % 2 == 0
    ensures forall k :: 0 <= k < |r| ==> r[k] == i + 2 * k && r[k] < 99 && present(BookId(r[k]))
    ensures i + 2 * |r| < 99 ==> !present(BookId(i + 2 * |r|))
    decreases 100 - i
  {
    if i >= 99 || !present(BookId(i)) then []
    else [i] + ScanSlots(present, i + 2)
  }

  /** With every block present, all fifty slots are read. */
  lemma {:induction false} ScanAllPresent(present: string -> bool, i: nat)
    requires i % 2 == 0 && i <= 100
    requires forall j: nat :: j % 2 == 0 && j < 99 ==> present(BookId(j))
    ensures |ScanSlots(present, i)| == (100 - i) / 2
    decreases 100 - i
  {
    if i < 99 {
      assert present(BookId(i));
      ScanAllPresent(present, i + 2);
    }
  }

  // ------------------------------------------------------------------
  // The book record
  // ------------------------------------------------------------------

  /** A value of the record dictionary. */
  datatype BookValue = Null | Str(s: string) | Num(n: int) | Flag(b: bool)

  predicate BookTruthy(v: BookValue) {
    match v
    case Null => false
    case Str(s) => s != ""
    case Num(n) => n != 0
    case Flag(b) => b
  }

  function OfText(s: Option<string>): BookValue {
    match s
    case None => Null
    case Some(t) => Str(t)
  }

  /** The keys of the record dictionary. */
  datatype Key =
    | ListingUrl | Title | AuthorsKey | RequiredKey | Isbn13 | Isbn10
    | NewPrice | NewAvailable | UsedPrice | UsedAvailable | ClassifiedInfo
  {
    /** The key as the JSON file spells it. */
    function Name(): string {
      match this
      case ListingUrl => "listing_url"
      case Title => "title"
      case AuthorsKey => "authors"
      case RequiredKey => "required"
      case Isbn13 => "isbn_13"
      case Isbn10 => "isbn_10"
      case NewPrice => "new_price"
      case NewAvailable => "new_available"
      case UsedPrice => "used_price"
      case UsedAvailable => "used_available"
      case ClassifiedInfo => "classified_info"
    }

    /** Keys every record has. */
    predicate Always() {
      this in {ListingUrl, Title, Isbn13, Isbn10}
    }

    /** Keys stored only with a truthy value. */
    predicate TruthyOnly() {
      !Always() && this != AuthorsKey
    }
  }

  /** The `.string` of each field of one block. */
  datatype Spans = Spans(
    title: Option<string>, authors: Option<string>, status: Option<string>,
    isbn13: Option<string>, isbn10: Option<string>,
    newPrice: Option<string>, newAvailable: Option<string>,
    usedPrice: Option<string>, usedAvailable: Option<string>,
    classified: Option<string>)

  type Book = map<Key, BookValue>

  /** The field values of one block after the per-field rules: None or 0
      where the scraper stores nothing. */
  datatype Fields = Fields(
    title: Option<string>, authors: Option<string>, required: bool,
    isbn13: Option<string>, isbn10: Option<string>,
    newPrice: Option<string>, newAvailable: nat,
    usedPrice: Option<string>, usedAvailable: nat,
    classified: Option<string>)

  function Normalise(b: Spans): (f: Fields)
    ensures f.isbn13.Some? ==> !Contains(f.isbn13.value, NOT_AVAILABLE)
    ensures f.isbn10.Some? ==> !Contains(f.isbn10.value, NOT_AVAILABLE)
    ensures f.newPrice.Some? ==> IsPrice(f.newPrice.value)
    ensures f.usedPrice.Some? ==> IsPrice(f.usedPrice.value)
  {
    Fields(b.title, Byline(b.authors), IsRequired(b.status), Isbn(b.isbn13), Isbn(b.isbn10),
           Price(b.newPrice), NumAvailable(b.newAvailable),
           Price(b.usedPrice), NumAvailable(b.usedAvailable), b.classified)
  }

  /** `v` when truthy: the `if value: attrs[key] = value` pattern. */
  function IfTruthy(v: BookValue): (r: Option<BookValue>)
    ensures r.Some? <==> BookTruthy(v)
    ensures r.Some? ==> r.value == v
  {
    if BookTruthy(v) then Some(v) else None
  }

  /** What the record holds under key k: the listing URL, title and both
      ISBNs always; the authors when there is a byline; the remaining
      fields only when truthy. */
  function Entry(url: string, f: Fields, k: Key): (r: Option<BookValue>)
    ensures k.Always() ==> r.Some?
    ensures k.TruthyOnly() && r.Some? ==> BookTruthy(r.value)
  {
    match k
    case ListingUrl => Some(Str(url))
    case Title => Some(OfText(f.title))
    case AuthorsKey => if f.authors.Some? then Some(Str(f.authors.value)) else None
    case RequiredKey => IfTruthy(Flag(f.required))
    case Isbn13 => Some(OfText(f.isbn13))
    case Isbn10 => Some(OfText(f.isbn10))
    case NewPrice => IfTruthy(OfText(f.newPrice))
    case NewAvailable => IfTruthy(Num(f.newAvailable))
    case UsedPrice => IfTruthy(OfText(f.usedPrice))
    case UsedAvailable => IfTruthy(Num(f.usedAvailable))
    case ClassifiedInfo => IfTruthy(OfText(f.classified))
  }

  const ALL_KEYS: set<Key> := {
    ListingUrl, Title, AuthorsKey, RequiredKey, Isbn13, Isbn10,
    NewPrice, NewAvailable, UsedPrice, UsedAvailable, ClassifiedInfo}

  lemma KeyListed(k: Key)
    ensures k in ALL_KEYS
  {
    match k
    case ListingUrl => case Title => case AuthorsKey => case RequiredKey =>
    case Isbn13 => case Isbn10 => case NewPrice => case NewAvailable =>
    case UsedPrice => case UsedAvailable => case ClassifiedInfo =>
  }

  lemma AllKeysListed()
    ensures forall k: Key :: k in ALL_KEYS
  {
    forall k: Key ensures k in ALL_KEYS {
      KeyListed(k);
    }
  }

  /** The record dictionary the scraper builds key by key; the keys are
      distinct, so the order of the assignments does not matter. */
  function Record(url: string, f: Fields): (r: Book)
    ensures forall k: Key :: k in r <==> Entry(url, f, k).Some?
    ensures forall k: Key :: k in r ==> r[k] == Entry(url, f, k).value
  {
    AllKeysListed();
    map k | k in ALL_KEYS && Entry(url, f, k).Some? :: Entry(url, f, k).value
  }

  /** The record of one block. */
  function BookRecord(url: string, b: Spans): Book {
    Record(url, Normalise(b))
  }

  /** The byline, status and classifieds keys are present exactly when
      their rules hold. */
  lemma RecordKeys(url: string, b: Spans)
    ensures AuthorsKey in BookRecord(url, b) <==> Byline(b.authors).Some?
    ensures RequiredKey in BookRecord(url, b) <==> IsRequired(b.status)
    ensures ClassifiedInfo in BookRecord(url, b) <==> TruthyText(b.classified)
  {
    var f := Normalise(b);
    assert f.authors == Byline(b.authors) && f.required == IsRequired(b.status) && f.classified == b.classified;
  }

  /** The new-copy price key is present exactly when the text holds a
      price, and the availability key exactly when the count is not zero. */
  lemma RecordNewKeys(url: string, b: Spans)
    ensures NewPrice in BookRecord(url, b) <==> Price(b.newPrice).Some?
    ensures NewAvailable in BookRecord(url, b) <==> NumAvailable(b.newAvailable) > 0
  {
    var f := Normalise(b);
    assert f.newPrice == Price(b.newPrice) && f.newAvailable == NumAvailable(b.newAvailable);
    assert f.newPrice.Some? ==> f.newPrice.value != "";
  }

  /** The same for used copies. */
  lemma RecordUsedKeys(url: string, b: Spans)
    ensures UsedPrice in BookRecord(url, b) <==> Price(b.usedPrice).Some?
    ensures UsedAvailable in BookRecord(url, b) <==> NumAvailable(b.usedAvailable) > 0
  {
    var f := Normalise(b);
    assert f.usedPrice == Price(b.usedPrice) && f.usedAvailable == NumAvailable(b.usedAvailable);
    assert f.usedPrice.Some? ==> f.usedPrice.value != "";
  }

  /** `textbook_attrs["isbn_10"] or textbook_attrs["isbn_13"]`. */
  predicate ShouldWrite(r: Book)
    requires Isbn13 in r && Isbn10 in r
  {
    BookTruthy(r[Isbn10]) || BookTruthy(r[Isbn13])
  }

  /** `textbook["isbn_13"] or textbook["isbn_10"]`, the file name of a
      written book. */
  function FileKey(r: Book): BookValue
    requires Isbn13 in r && Isbn10 in r
  {
    if BookTruthy(r[Isbn13]) then r[Isbn13] else r[Isbn10]
  }

  /** A written book is filed under its ISBN-13 when it has one and its
      ISBN-10 otherwise, never under an empty or "[N/A]" text. */
  lemma WrittenKey(url: string, b: Spans)
    requires Isbn13.Always() && Isbn10.Always()
    requires ShouldWrite(BookRecord(url, b))
    ensures FileKey(BookRecord(url, b)).Str? && BookTruthy(FileKey(BookRecord(url, b)))
    ensures !Contains(FileKey(BookRecord(url, b)).s, NOT_AVAILABLE)
    ensures TruthyText(Isbn(b.isbn13)) ==> FileKey(BookRecord(url, b)) == Str(b.isbn13.value)
    ensures !TruthyText(Isbn(b.isbn13)) ==> FileKey(BookRecord(url, b)) == Str(b.isbn10.value)
  {
  }

  /** A block whose both ISBNs are unavailable is not written. */
  lemma NoIsbnNoWrite(url: string, b: Spans)
    requires Isbn13.Always() && Isbn10.Always()
    requires Isbn(b.isbn13).None? || b.isbn13 == Some("")
    requires Isbn(b.isbn10).None? || b.isbn10 == Some("")
    ensures !ShouldWrite(BookRecord(url, b))
  {
  }

  /** The spans of block i; a span missing from the page raises
      AttributeError when its `.string` is read. */
  function ReadSpans(span: string -> Option<Option<string>>, i: nat): (r: Result<Spans>)
    requires i < 100
    ensures r.Err? ==> r.exc == AttributeError
  {
    var title :- Field(span, i, "BookTitle");
    var authors :- Field(span, i, "BookAuthor");
    var status :- Field(span, i, "StatusLabel");
    var isbn13 :- Field(span, i, "ISBN13Label");
    var isbn10 :- Field(span, i, "ISBN10Label");
    var newPrice :- Field(span, i, "NewPriceLabel");
    var newAvailable :- Field(span, i, "NewAvailabilityLabel");
    var usedPrice :- Field(span, i, "UsedPriceLabel");
    var usedAvailable :- Field(span, i, "UsedAvailabilityLabel");
    var classified :- Field(span, i, "ClassifiedsLabel");
    Ok(Spans(title, authors, status, isbn13, isbn10, newPrice, newAvailable, usedPrice, usedAvailable, classified))
  }

  function Field(span: string -> Option<Option<string>>, i: nat, field: string): (r: Result<Option<string>>)
    requires i < 100
    ensures r.Err? ==> r.exc == AttributeError
  {
    match span(FieldId(i, field))
    case None => Err(AttributeError)
    case Some(t) => Ok(t)
  }

  datatype Written = Written(key: string, record: Book)

  /** A written book's file key is a non-empty text without "[N/A]". */
  predicate Filed(w: Written) {
    w.key != "" && !Contains(w.key, NOT_AVAILABLE)
  }

  /** The record of a block is written when it has an ISBN. */
  predicate Writes(url: string, b: Spans) {
    assert Isbn13.Always() && Isbn10.Always();
    ShouldWrite(BookRecord(url, b))
  }

  /** What block i writes: its record under its file key when it has an
      ISBN, nothing otherwise. */
  function SlotBook(link: string, i: nat, b: Spans): (w: seq<Written>)
    requires i < 100
    ensures |w| <= 1
    ensures |w| == 1 <==> Writes(link + "#" + BookId(i), b)
    ensures |w| == 1 ==> w[0].record == BookRecord(link + "#" + BookId(i), b) && Filed(w[0])
  {
    var url := link + "#" + BookId(i);
    var rec := BookRecord(url, b);
    assert Isbn13.Always() && Isbn10.Always();
    if ShouldWrite(rec) then
      WrittenKey(url, b);
      [Written(FileKey(rec).s, rec)]
    else []
  }

  /** What the block loop of a course page leaves behind: the books it
      wrote, in slot order, and the exception that stopped it, if any. A
      book is written as soon as its block is read, so the books before a
      failing block stay written. */
  datatype PageOutcome = PageOutcome(written: seq<Written>, error: Option<Exc>)

  /** The block loop over the scanned slots of one course page. */
  function PageBooks(link: string, span: string -> Option<Option<string>>, slots: seq<nat>): (r: PageOutcome)
    requires forall k :: 0 <= k < |slots| ==> slots[k] < 100
    ensures r.error.Some? ==> r.error.value == AttributeError
    ensures r.error.None? <==> forall k :: 0 <= k < |slots| ==> ReadSpans(span, slots[k]).Ok?
    ensures |r.written| <= |slots|
    ensures forall k :: 0 <= k < |r.written| ==> Filed(r.written[k])
    decreases |slots|
  {
    if slots == [] then PageOutcome([], None)
    else
      SpansReadStep(span, slots);
      match ReadSpans(span, slots[0])
      case Err(e) => PageOutcome([], Some(e))
      case Ok(b) =>
        var rest := PageBooks(link, span, slots[1..]);
        PageOutcome(SlotBook(link, slots[0], b) + rest.written, rest.error)
  }

  /** Every block of a run is read exactly when the first is and every
      block of the rest is. */
  lemma SpansReadStep(span: string -> Option<Option<string>>, slots: seq<nat>)
    requires |slots| > 0 && forall k :: 0 <= k < |slots| ==> slots[k] < 100
    ensures forall k :: 0 <= k < |slots[1..]| ==> slots[1..][k] < 100
    ensures (forall k :: 0 <= k < |slots| ==> ReadSpans(span, slots[k]).Ok?)
            <==> ReadSpans(span, slots[0]).Ok? && forall k :: 0 <= k < |slots[1..]| ==> ReadSpans(span, slots[1..][k]).Ok?
  {
    assert forall k :: 1 <= k < |slots| ==> slots[k] == slots[1..][k - 1];
  }

  /** The loop stops at the first block with a missing span: the books of
      the blocks before it are written exactly as on a page that ends there,
      and the AttributeError propagates. */
  lemma {:induction false} PageBooksStopsAtError(link: string, span: string -> Option<Option<string>>, slots: seq<nat>, k: nat)
    requires forall j :: 0 <= j < |slots| ==> slots[j] < 100
    requires k < |slots| && ReadSpans(span, slots[k]).Err?
    requires forall j :: 0 <= j < k ==> ReadSpans(span, slots[j]).Ok?
    ensures PageBooks(link, span, slots[..k]).error.None?
    ensures PageBooks(link, span, slots) == PageOutcome(PageBooks(link, span, slots[..k]).written, Some(AttributeError))
    decreases k
  {
    if k == 0 {
      assert slots[..0] == [];
    } else {
      var tail := slots[1..];
      assert tail[k - 1] == slots[k];
      forall j | 0 <= j < k - 1
        ensures ReadSpans(span, tail[j]).Ok?
      {
        assert tail[j] == slots[j + 1];
      }
      PageBooksStopsAtError(link, span, tail, k - 1);
      assert slots[..k][0] == slots[0] && slots[..k][1..] == tail[..k - 1];
      assert ReadSpans(span, slots[0]).Ok?;
    }
  }

  /** The books of a course page: the scanned slots, then their records. */
  function CourseBooks(link: string, present: string -> bool, span: string -> Option<Option<string>>): PageOutcome {
    PageBooks(link, span, ScanSlots(present, 0))
  }

  // ------------------------------------------------------------------
  // The course link filter
  // ------------------------------------------------------------------

  const COURSE_LINK_MARK := "campusbookstore.com/Textbooks/Course/"

  /** Length of the run of non-digits that starts `s`. */
  function NonDigitRun(s: string): (n: nat)
    ensures n <= |s| && forall k :: 0 <= k < n ==> !IsDigit(s[k])
    ensures n < |s| ==> IsDigit(s[n])
    decreases |s|
  {
    if |s| > 0 && !IsDigit(s[0]) then 1 + NonDigitRun(s[1..]) else 0
  }

  /** `.*$` without MULTILINE: no newline, except one at the very end. */
  predicate LineEnd(rest: string) {
    '\n' !in rest || ('\n' !in rest[..|rest| - 1] && rest[|rest| - 1] == '\n')
  }

  /** `re.search("^(\D+)(\d+).*$", t)`: the subject is the whole leading
      run of non-digits and the course number the digit run after it,
      since `\D` and `\d` split every character between them. */
  function SplitCourseText(t: string): (r: Option<(string, string)>)
    ensures r.Some? ==> |r.value.0| >= 1 && |r.value.1| >= 1 && AllDigits(r.value.1)
    ensures r.Some? ==> StartsWith(t, r.value.0 + r.value.1)
  {
    var a := NonDigitRun(t);
    if a == 0 then None
    else
      var b := DigitRun(t[a..]);
      if b == 0 || !LineEnd(t[a + b..]) then None
      else
        assert t[..a + b] == t[..a] + t[a..][..b];
        Some((t[..a], t[a..][..b]))
  }

  /** Course-text round trip. */
  lemma SplitCourseTextOf(subject: string, number: string, rest: string)
    requires |subject| >= 1 && forall k :: 0 <= k < |subject| ==> !IsDigit(subject[k])
    requires |number| >= 1 && AllDigits(number)
    requires (rest == [] || !IsDigit(rest[0])) && '\n' !in rest
    ensures SplitCourseText(subject + number + rest) == Some((subject, number))
  {
    var t := subject + number + rest;
    NonDigitRunOf(subject, number + rest);
    assert t == subject + (number + rest);
    assert t[|subject|..] == number + rest;
    DigitRunOf(number, rest);
    assert t[|subject| + |number|..] == rest;
    assert t[..|subject|] == subject;
    assert t[|subject|..][..|number|] == number;
  }

  lemma {:induction false} NonDigitRunOf(d: string, post: string)
    requires forall k :: 0 <= k < |d| ==> !IsDigit(d[k])
    requires post != [] && IsDigit(post[0])
    ensures NonDigitRun(d + post) == |d|
    decreases |d|
  {
    if d == [] {
      assert d + post == post;
    } else {
      assert (d + post)[0] == d[0] && (d + post)[1..] == d[1..] + post;
      NonDigitRunOf(d[1..], post);
    }
  }

  datatype CourseLink = CourseLink(subject: string, course: string, href: string)

  /** One link of the booklist page: kept when its href points at a course
      booklist, its text reads as subject and number, and the upper-cased
      second character of the subject is one of the configured letters.
      A matching href with no link text raises TypeError, and a one-letter
      subject raises IndexError. */
  function LinkEntry(href: Option<string>, text: Option<string>, letters: string): (r: Result<Option<CourseLink>>)
    ensures r.Ok? && r.value.Some? ==> Contains(r.value.value.href, COURSE_LINK_MARK) && href == Some(r.value.value.href)
    ensures r.Ok? && r.value.Some? ==> |r.value.value.subject| >= 2 && UpperChar(r.value.value.subject[1]) in letters
    ensures !Contains(href.GetOr(""), COURSE_LINK_MARK) ==> r == Ok(None)
  {
    var h := href.GetOr("");
    if !Contains(h, COURSE_LINK_MARK) then Ok(None)
    else if text.None? then Err(TypeError)
    else
      match SplitCourseText(text.value)
      case None => Ok(None)
      case Some((subject, course)) =>
        if |subject| < 2 then Err(IndexError)
        else if UpperChar(subject[1]) in letters then Ok(Some(CourseLink(subject, course, h)))
        else Ok(None)
  }

  /** For a well-formed course link the decision rests on the second
      character of the subject text. */
  lemma LinkKeptBySecondCharacter(href: string, subject: string, number: string, letters: string)
    requires Contains(href, COURSE_LINK_MARK)
    requires |subject| >= 2 && forall k :: 0 <= k < |subject| ==> !IsDigit(subject[k])
    requires |number| >= 1 && AllDigits(number)
    ensures LinkEntry(Some(href), Some(subject + number), letters)
         == if UpperChar(subject[1]) in letters then Ok(Some(CourseLink(subject, number, href))) else Ok(None)
  {
    SplitCourseTextOf(subject, number, []);
    assert subject + number + [] == subject + number;
  }

  /** `ANAT100` is dropped when only "A" is configured: the test reads 'N'. */
  lemma SecondCharacterExample()
    ensures LinkEntry(Some(COURSE_LINK_MARK), Some("ANAT100"), "A") == Ok(None)
    ensures LinkEntry(Some(COURSE_LINK_MARK), Some("ANAT100"), "N").Ok?
  {
    assert StartsWith(COURSE_LINK_MARK[0..], COURSE_LINK_MARK);
    forall k | 0 <= k < 4 ensures !IsDigit("ANAT"[k]) { }
    assert "ANAT" + "100" == "ANAT100";
    LinkKeptBySecondCharacter(COURSE_LINK_MARK, "ANAT", "100", "A");
    LinkKeptBySecondCharacter(COURSE_LINK_MARK, "ANAT", "100", "N");
  }

  /** The links a kept-or-dropped entry contributes: none or one. */
  function Kept(entry: Option<CourseLink>): (cs: seq<CourseLink>)
    ensures |cs| <= 1
    ensures |cs| == 1 <==> entry.Some?
    ensures entry.Some? ==> cs[0] == entry.value
  {
    if entry.Some? then [entry.value] else []
  }

  /** The link loop, in page order; the first link that raises ends it. */
  function CourseLinks(links: seq<(Option<string>, Option<string>)>, letters: string): (r: Result<seq<CourseLink>>)
    ensures r.Err? ==> r.exc == TypeError || r.exc == IndexError
    ensures r.Ok? ==> |r.value| <= |links|
    ensures r.Ok? ==> forall k :: 0 <= k < |r.value| ==> Contains(r.value[k].href, COURSE_LINK_MARK)
    decreases |links|
  {
    if links == [] then Ok([])
    else
      match LinkEntry(links[0].0, links[0].1, letters)
      case Err(e) => Err(e)
      case Ok(entry) =>
        match CourseLinks(links[1..], letters)
        case Err(e) => Err(e)
        case Ok(rest) => Ok(Kept(entry) + rest)
  }

  /** The loop returns normally exactly when no link raises. */
  lemma {:induction false} CourseLinksSucceeds(links: seq<(Option<string>, Option<string>)>, letters: string)
    ensures CourseLinks(links, letters).Ok? <==> forall k :: 0 <= k < |links| ==> LinkEntry(links[k].0, links[k].1, letters).Ok?
    decreases |links|
  {
    if links != [] {
      CourseLinksSucceeds(links[1..], letters);
      assert forall k :: 1 <= k < |links| ==> links[k] == links[1..][k - 1];
    }
  }

  /** One link gives what its own test gives: its exception, or the link
      when kept and nothing when dropped. */
  lemma CourseLinksOne(link: (Option<string>, Option<string>), letters: string)
    ensures LinkEntry(link.0, link.1, letters).Err? ==>
              CourseLinks([link], letters) == Err(LinkEntry(link.0, link.1, letters).exc)
    ensures LinkEntry(link.0, link.1, letters).Ok? ==>
              CourseLinks([link], letters) == Ok(Kept(LinkEntry(link.0, link.1, letters).value))
  {
    assert [link][1..] == [];
    var e := LinkEntry(link.0, link.1, letters);
    if e.Ok? {
      assert Kept(e.value) + [] == Kept(e.value);
    }
  }

  /** The loop works link by link: the kept links of a page are those of
      its first links followed by those of the rest, in page order. */
  lemma {:induction false} CourseLinksAppend(a: seq<(Option<string>, Option<string>)>, b: seq<(Option<string>, Option<string>)>, letters: string)
    requires CourseLinks(a, letters).Ok? && CourseLinks(b, letters).Ok?
    ensures CourseLinks(a + b, letters) == Ok(CourseLinks(a, letters).value + CourseLinks(b, letters).value)
    decreases |a|
  {
    if a == [] {
      assert a + b == b;
      assert CourseLinks(a, letters).value + CourseLinks(b, letters).value == CourseLinks(b, letters).value;
    } else {
      CourseLinksStep(a, letters);
      CourseLinksAppend(a[1..], b, letters);
      CourseLinksAfterFirst(a, b, letters);
      AppendAssoc(Kept(LinkEntry(a[0].0, a[0].1, letters).value),
                  CourseLinks(a[1..], letters).value, CourseLinks(b, letters).value);
    }
  }

  /** The loop over `a + b` takes `a`'s first link, then goes on over the
      rest of `a` followed by `b`. */
  lemma CourseLinksAfterFirst(a: seq<(Option<string>, Option<string>)>, b: seq<(Option<string>, Option<string>)>, letters: string)
    requires |a| > 0 && LinkEntry(a[0].0, a[0].1, letters).Ok? && CourseLinks(a[1..] + b, letters).Ok?
    ensures CourseLinks(a + b, letters)
         == Ok(Kept(LinkEntry(a[0].0, a[0].1, letters).value) + CourseLinks(a[1..] + b, letters).value)
  {
    var ab := a + b;
    assert ab[0] == a[0] && ab[1..] == a[1..] + b;
    CourseLinksCons(ab, letters);
  }

  /** A first link that succeeds followed by a tail that succeeds. */
  lemma CourseLinksCons(links: seq<(Option<string>, Option<string>)>, letters: string)
    requires |links| > 0 && LinkEntry(links[0].0, links[0].1, letters).Ok? && CourseLinks(links[1..], letters).Ok?
    ensures CourseLinks(links, letters)
         == Ok(Kept(LinkEntry(links[0].0, links[0].1, letters).value) + CourseLinks(links[1..], letters).value)
  {
  }

  /** A loop that succeeds has a first link that succeeds and a tail that
      succeeds, and keeps the first link's entry ahead of the tail's. */
  lemma CourseLinksStep(links: seq<(Option<string>, Option<string>)>, letters: string)
    requires |links| > 0 && CourseLinks(links, letters).Ok?
    ensures LinkEntry(links[0].0, links[0].1, letters).Ok? && CourseLinks(links[1..], letters).Ok?
    ensures CourseLinks(links, letters).value
         == Kept(LinkEntry(links[0].0, links[0].1, letters).value) + CourseLinks(links[1..], letters).value
  {
  }

  /** The first link that raises decides the exception, whatever follows
      it. */
  lemma {:induction false} CourseLinksFirstError(links: seq<(Option<string>, Option<string>)>, letters: string, k: nat)
    requires k < |links| && LinkEntry(links[k].0, links[k].1, letters).Err?
    requires forall j :: 0 <= j < k ==> LinkEntry(links[j].0, links[j].1, letters).Ok?
    ensures CourseLinks(links, letters) == Err(LinkEntry(links[k].0, links[k].1, letters).exc)
    decreases k
  {
    if k > 0 {
      var tail := links[1..];
      assert tail[k - 1] == links[k];
      forall j | 0 <= j < k - 1
        ensures LinkEntry(tail[j].0, tail[j].1, letters).Ok?
      {
        assert tail[j] == links[j + 1];
      }
      CourseLinksFirstError(tail, letters, k - 1);
      assert LinkEntry(links[0].0, links[0].1, letters).Ok?;
    }
  }
}
