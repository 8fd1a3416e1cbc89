/** The record builder of scraper.py (`get_book_data`): from the elements
    selected on one book detail page to the eleven-field book record. The
    HTML is not parsed here: a `DetailPage` holds, for each selector the
    builder uses, the text of the element it finds or `None` when it finds
    nothing. */
module BookPage {
  import opened Wrappers
  import opened Text
  import Lists

  /** One `<tr>` of the product table: the text of its `th` and its `td`. */
  datatype Row = Row(th: Option<string>, td: Option<string>)

  /** The `#product_description` anchor, if any, and the text of the next
      sibling `<p>` after it, if any. */
  datatype DescriptionBlock = NoAnchor | Anchor(nextParagraph: Option<string>)

  /** What the builder reads from a fetched detail page. */
  datatype DetailPage = DetailPage(
    status: int,                        // HTTP status of the response
    heading: Option<string>,            // the h1 inside div.product_main
    price: Option<string>,              // p.price_color
    starClasses: Option<seq<string>>,   // class list of p.star-rating
    availability: Option<string>,       // p.instock.availability
    description: DescriptionBlock,
    table: Option<seq<Row>>)            // rows of table.table.table-striped

  /** The record; the rating 1.0..5.0 is kept as the integer 1..5. */
  datatype Book = Book(
    title: string,
    price: string,
    rating: Option<int>,
    availability: string,
    description: string,
    upc: Option<string>,
    productType: Option<string>,
    priceExclTax: Option<string>,
    priceInclTax: Option<string>,
    tax: Option<string>,
    numReviews: Option<string>)

  /** Why one book could not be produced. Each stands for the exception the
      builder raises at that point; `NetworkFailure` is the request itself
      failing. */
  datatype FetchError =
    | NetworkFailure
    | NotOk(status: int)      // `soup` is never bound
    | NoTitle
    | NoPrice
    | NoStarRating
    | NoRatingClass           // `[...][0]` on an empty list
    | NoAvailability
    | NoDescriptionText       // no `<p>` after the anchor
    | NoTable
    | IncompleteRow           // a row without `th` or `td`

  // ---------------------------------------------------------------------
  // Rating

  const StarMarker := "star-rating"

  /** A class other than the marker is a candidate rating word. */
  function RatingCandidate(c: string): Option<string> {
    if c == StarMarker then None else Some(c)
  }

  /** The classes of the rating element other than the marker class, in order. */
  function RatingClasses(classes: seq<string>): seq<string> {
    Lists.FilterMap(RatingCandidate, classes)
  }

  /** The rating vocabulary `One`..`Five` looked up as `rating_map.get`. */
  function RatingValue(word: string): (r: Option<int>)
    ensures r.Some? ==> 1 <= r.value <= 5
    ensures r.Some? <==> word in {"One", "Two", "Three", "Four", "Five"}
  {
    match word
    case "One" => Some(1)
    case "Two" => Some(2)
    case "Three" => Some(3)
    case "Four" => Some(4)
    case "Five" => Some(5)
    case _ => None
  }

  /** The class that encodes the rating `n`. */
  function RatingWord(n: int): (w: string)
    requires 1 <= n <= 5
    ensures RatingValue(w) == Some(n)
  {
    ["One", "Two", "Three", "Four", "Five"][n - 1]
  }

  /** The vocabulary is decoded one to one. */
  lemma RatingWordUnique(w: string, n: int)
    requires RatingValue(w) == Some(n)
    ensures RatingWord(n) == w
  {
  }

  predicate OnlyMarker(classes: seq<string>) {
    forall c :: c in classes ==> c == StarMarker
  }

  /** The first class that is not the marker decides the rating; there must be one. */
  function DecodeRating(classes: seq<string>): (r: Result<Option<int>, FetchError>)
    ensures r.Failure? ==> r.error == NoRatingClass
    ensures r.Success? && r.value.Some? ==> 1 <= r.value.value <= 5
  {
    var rest := RatingClasses(classes);
    if rest == [] then Failure(NoRatingClass) else Success(RatingValue(rest[0]))
  }

  /** `i` is the position of the first class that is not the marker. */
  predicate FirstRatingClassAt(classes: seq<string>, i: int) {
    && 0 <= i < |classes|
    && classes[i] != StarMarker
    && forall j :: 0 <= j < i ==> classes[j] == StarMarker
  }

  lemma {:induction false} RatingClassesHead(classes: seq<string>, i: int)
    requires FirstRatingClassAt(classes, i)
    ensures RatingClasses(classes) != [] && RatingClasses(classes)[0] == classes[i]
    decreases |classes|
  {
    if i > 0 {
      assert FirstRatingClassAt(classes[1..], i - 1);
      RatingClassesHead(classes[1..], i - 1);
    }
  }

  /** Decoding fails exactly when every class is the marker; otherwise the
      rating is `n` exactly when the first other class is the word for `n`,
      and is absent (not an error) when that class is any other word. */
  lemma DecodeRatingCases(classes: seq<string>)
    ensures DecodeRating(classes).Failure? <==> OnlyMarker(classes)
    ensures forall i :: FirstRatingClassAt(classes, i) ==>
      && DecodeRating(classes) == Success(RatingValue(classes[i]))
      && (forall n :: 1 <= n <= 5 ==> (DecodeRating(classes) == Success(Some(n)) <==> classes[i] == RatingWord(n)))
  {
    var rest := RatingClasses(classes);
    if rest != [] {
      assert rest[0] in rest;
      Lists.FilterMapMembers(RatingCandidate, classes, rest[0]);
    } else {
      forall c | c in classes
        ensures c == StarMarker
      {
        Lists.FilterMapMembers(RatingCandidate, classes, c);
      }
    }
    forall i | FirstRatingClassAt(classes, i)
      ensures DecodeRating(classes) == Success(RatingValue(classes[i]))
    {
      RatingClassesHead(classes, i);
    }
    forall i, n | FirstRatingClassAt(classes, i) && 1 <= n <= 5 && DecodeRating(classes) == Success(Some(n))
      ensures classes[i] == RatingWord(n)
    {
      RatingWordUnique(classes[i], n);
    }
  }

  // ---------------------------------------------------------------------
  // Description

  const NoDescription := "No description"

  /** The stripped paragraph after the anchor, or the fixed default when
      the page has no anchor. */
  function Description(d: DescriptionBlock): (r: Result<string, FetchError>)
    ensures d.NoAnchor? ==> r == Success(NoDescription)
    ensures d.Anchor? ==> (r.Success? <==> d.nextParagraph.Some?)
    ensures d.Anchor? && d.nextParagraph.Some? ==> r == Success(Strip(d.nextParagraph.value))
    ensures r.Failure? ==> r.error == NoDescriptionText
  {
    match d
    case NoAnchor => Success(NoDescription)
    case Anchor(Some(p)) => Success(Strip(p))
    case Anchor(None) => Failure(NoDescriptionText)
  }

  // ---------------------------------------------------------------------
  // Product table

  predicate RowsComplete(rows: seq<Row>) {
    forall i :: 0 <= i < |rows| ==> rows[i].th.Some? && rows[i].td.Some?
  }

  /** The stripped text of a complete row's `th` and `td`. */
  function RowText(row: Row): (string, string)
    requires row.th.Some? && row.td.Some?
  {
    (Strip(row.th.value), Strip(row.td.value))
  }

  /** One row of the comprehension: `None` when its `th` or `td` is missing. */
  function RowPair(row: Row): Option<(string, string)> {
    if row.th.Some? && row.td.Some? then Some(RowText(row)) else None
  }

  /** The stripped text of every row, or `None` when some row lacks its `th`
      or its `td`. */
  function CompleteRows(rows: seq<Row>): (r: Option<seq<(string, string)>>)
    ensures r.Some? <==> RowsComplete(rows)
    ensures r.Some? ==> |r.value| == |rows|
    ensures r.Some? ==> forall i :: 0 <= i < |rows| ==> r.value[i] == RowText(rows[i])
  {
    Lists.MapAllSpec(RowPair, rows);
    Lists.MapAll(RowPair, rows)
  }

  /** The dict comprehension over the stripped rows: header to value, rows
      taken in order so that a later row overwrites an earlier one. */
  function TableOf(pairs: seq<(string, string)>): (r: map<string, string>)
    ensures |r| <= |pairs|
    ensures pairs != [] ==> var last := pairs[|pairs| - 1]; last.0 in r && r[last.0] == last.1
    decreases |pairs|
  {
    if pairs == [] then map[]
    else
      var last := pairs[|pairs| - 1];
      TableOf(pairs[..|pairs| - 1])[last.0 := last.1]
  }

  /** The table has a key exactly for each header that some row carries. */
  lemma {:induction false} TableKeys(pairs: seq<(string, string)>, key: string)
    ensures key in TableOf(pairs) <==> exists i :: 0 <= i < |pairs| && pairs[i].0 == key
    decreases |pairs|
  {
    if pairs != [] {
      var front := pairs[..|pairs| - 1];
      TableKeys(front, key);
      assert forall i :: 0 <= i < |front| ==> front[i] == pairs[i];
    }
  }

  /** Every entry of the table is the header and value of some row. */
  lemma {:induction false} TableEntries(pairs: seq<(string, string)>, key: string)
    requires key in TableOf(pairs)
    ensures exists i :: 0 <= i < |pairs| && pairs[i] == (key, TableOf(pairs)[key])
    decreases |pairs|
  {
    var front := pairs[..|pairs| - 1];
    var last := pairs[|pairs| - 1];
    if last.0 == key {
      assert pairs[|pairs| - 1] == (key, TableOf(pairs)[key]);
    } else {
      TableEntries(front, key);
      var i :| 0 <= i < |front| && front[i] == (key, TableOf(front)[key]);
      assert pairs[i] == (key, TableOf(pairs)[key]);
    }
  }

  /** With a repeated header, the value of the last row carrying it wins. */
  lemma {:induction false} LastRowWins(pairs: seq<(string, string)>, i: int)
    requires 0 <= i < |pairs|
    requires forall j :: i < j < |pairs| ==> pairs[j].0 != pairs[i].0
    ensures pairs[i].0 in TableOf(pairs)
    ensures TableOf(pairs)[pairs[i].0] == pairs[i].1
    decreases |pairs|
  {
    if i < |pairs| - 1 {
      var front := pairs[..|pairs| - 1];
      assert front[i] == pairs[i];
      LastRowWins(front, i);
    }
  }

  /** `dict.get`: the value under `key`, or `None`. */
  function Lookup(table: map<string, string>, key: string): (r: Option<string>)
    ensures r.Some? <==> key in table
    ensures r.Some? ==> r.value == table[key]
  {
    if key in table then Some(table[key]) else None
  }

  /** The rows whose stripped header is not `key`. */
  function PairsWithout(pairs: seq<(string, string)>, key: string): seq<(string, string)>
    decreases |pairs|
  {
    if pairs == [] then []
    else
      var last := pairs[|pairs| - 1];
      PairsWithout(pairs[..|pairs| - 1], key) + (if last.0 == key then [] else [last])
  }

  lemma UpdateThenRemove(m: map<string, string>, key: string, h: string, v: string)
    ensures m[h := v] - {key} == if h == key then m - {key} else (m - {key})[h := v]
  {
  }

  lemma TableOfSnoc(pairs: seq<(string, string)>, last: (string, string))
    ensures TableOf(pairs + [last]) == TableOf(pairs)[last.0 := last.1]
  {
    assert (pairs + [last])[..|pairs|] == pairs;
  }

  /** Leaving out the rows of one header removes that header and nothing else. */
  lemma {:induction false} TableWithout(pairs: seq<(string, string)>, key: string)
    ensures TableOf(PairsWithout(pairs, key)) == TableOf(pairs) - {key}
    decreases |pairs|
  {
    if pairs != [] {
      var front := pairs[..|pairs| - 1];
      var last := pairs[|pairs| - 1];
      TableWithout(front, key);
      TableOfSnoc(front, last);
      assert pairs == front + [last];
      var m := TableOf(front);
      if last.0 != key {
        TableOfSnoc(PairsWithout(front, key), last);
        UpdateThenRemove(m, key, last.0, last.1);
      } else {
        assert PairsWithout(pairs, key) == PairsWithout(front, key) + [];
        assert PairsWithout(front, key) + [] == PairsWithout(front, key);
        UpdateThenRemove(m, key, key, last.1);
      }
    }
  }

  /** The six record fields read from the product table. */
  datatype TableField = Upc | ProductType | PriceExclTax | PriceInclTax | Tax | NumReviews

  /** The exact header each table field is looked up by. */
  function HeaderOf(f: TableField): string {
    match f
    case Upc => "UPC"
    case ProductType => "Product Type"
    case PriceExclTax => "Price (excl. tax)"
    case PriceInclTax => "Price (incl. tax)"
    case Tax => "Tax"
    case NumReviews => "Number of reviews"
  }

  /** No two table fields share a header. */
  lemma HeaderOfInjective(f: TableField, g: TableField)
    requires f != g
    ensures HeaderOf(f) != HeaderOf(g)
  {
    if |HeaderOf(f)| == |HeaderOf(g)| {
      if |HeaderOf(f)| == 3 {
        assert HeaderOf(f)[0] != HeaderOf(g)[0];
      } else {
        assert HeaderOf(f)[7] != HeaderOf(g)[7];
      }
    }
  }

  // ---------------------------------------------------------------------
  // The builder

  /** Every element the builder needs is there and in the shape it expects. */
  predicate Extractable(page: DetailPage) {
    && page.status == 200
    && page.heading.Some?
    && page.price.Some?
    && page.starClasses.Some?
    && !OnlyMarker(page.starClasses.value)
    && page.availability.Some?
    && page.description != Anchor(None)
    && page.table.Some?
    && RowsComplete(page.table.value)
  }

  /** The part of `get_book_data` before the product table: the status check
      and the five fields read from the page, in the order the source reads
      them. The six table fields are left absent. */
  function BookHead(page: DetailPage): (r: Result<Book, FetchError>)
    ensures page.status != 200 ==> r == Failure(NotOk(page.status))
    ensures r.Failure? ==> r.error != NetworkFailure
    ensures r.Success? ==> r.value.rating.Some? ==> 1 <= r.value.rating.value <= 5
  {
    if page.status != 200 then Failure(NotOk(page.status))
    else if page.heading.None? then Failure(NoTitle)
    else if page.price.None? then Failure(NoPrice)
    else if page.starClasses.None? then Failure(NoStarRating)
    else
      var rating := DecodeRating(page.starClasses.value);
      if rating.Failure? then Failure(rating.error)
      else if page.availability.None? then Failure(NoAvailability)
      else
        var description := Description(page.description);
        if description.Failure? then Failure(description.error)
        else
          Success(Book(
            title := Strip(page.heading.value),
            price := Strip(page.price.value),
            rating := rating.value,
            availability := Strip(page.availability.value),
            description := description.value,
            upc := None, productType := None, priceExclTax := None,
            priceInclTax := None, tax := None, numReviews := None))
  }

  /** `get_book_data` on an already fetched page. */
  function ExtractBook(page: DetailPage): (r: Result<Book, FetchError>)
    ensures page.status != 200 ==> r == Failure(NotOk(page.status))
    ensures r.Failure? ==> r.error != NetworkFailure
    ensures r.Success? ==> r.value.rating.Some? ==> 1 <= r.value.rating.value <= 5
  {
    match BookHead(page)
    case Failure(e) => Failure(e)
    case Success(head) =>
      if page.table.None? then Failure(NoTable)
      else
        match CompleteRows(page.table.value)
        case None => Failure(IncompleteRow)
        case Some(pairs) => Success(WithTable(head, TableOf(pairs)))
  }

  /** The head of the record does not depend on the product table. */
  lemma BookHeadIgnoresTable(page: DetailPage, table: Option<seq<Row>>)
    ensures BookHead(page.(table := table)) == BookHead(page)
  {
  }

  /** The builder succeeds exactly when every element it reads is there. */
  lemma ExtractBookSucceeds(page: DetailPage)
    ensures ExtractBook(page).Success? <==> Extractable(page)
  {
    if page.status == 200 && page.heading.Some? && page.price.Some? && page.starClasses.Some? {
      DecodeRatingCases(page.starClasses.value);
    }
  }

  /** The record with its six table fields looked up in `data`. */
  function WithTable(b: Book, data: map<string, string>): (r: Book)
    ensures r.title == b.title && r.price == b.price && r.rating == b.rating
    ensures r.availability == b.availability && r.description == b.description
    ensures forall f :: FieldOf(r, f).Some? <==> HeaderOf(f) in data
    ensures forall f :: FieldOf(r, f).Some? ==> FieldOf(r, f).value == data[HeaderOf(f)]
  {
    b.(upc := Lookup(data, HeaderOf(Upc)),
       productType := Lookup(data, HeaderOf(ProductType)),
       priceExclTax := Lookup(data, HeaderOf(PriceExclTax)),
       priceInclTax := Lookup(data, HeaderOf(PriceInclTax)),
       tax := Lookup(data, HeaderOf(Tax)),
       numReviews := Lookup(data, HeaderOf(NumReviews)))
  }

  // ---------------------------------------------------------------------
  // What a built record says about its page

  /** `field` is what looking `key` up in the product table gives: absent
      exactly when no row has that header, and otherwise the value of the
      last row that has it. */
  predicate TableFieldFrom(rows: seq<Row>, key: string, field: Option<string>)
    requires RowsComplete(rows)
  {
    && (field.None? <==> forall i :: 0 <= i < |rows| ==> Strip(rows[i].th.value) != key)
    && forall i :: 0 <= i < |rows| && Strip(rows[i].th.value) == key
                   && (forall j :: i < j < |rows| ==> Strip(rows[j].th.value) != key)
         ==> field == Some(Strip(rows[i].td.value))
  }

  /** A header no row carries is absent from the table, and only then. */
  lemma LookupTableAbsent(rows: seq<Row>, key: string)
    requires RowsComplete(rows)
    ensures Lookup(TableOf(CompleteRows(rows).value), key).None?
            <==> forall i :: 0 <= i < |rows| ==> Strip(rows[i].th.value) != key
  {
    var pairs := CompleteRows(rows).value;
    TableKeys(pairs, key);
    assert forall i :: 0 <= i < |rows| ==> pairs[i].0 == Strip(rows[i].th.value);
  }

  lemma LookupTable(rows: seq<Row>, key: string)
    requires RowsComplete(rows)
    ensures TableFieldFrom(rows, key, Lookup(TableOf(CompleteRows(rows).value), key))
  {
    var pairs := CompleteRows(rows).value;
    LookupTableAbsent(rows, key);
    forall i | 0 <= i < |rows| && Strip(rows[i].th.value) == key
               && (forall j :: i < j < |rows| ==> Strip(rows[j].th.value) != key)
      ensures Lookup(TableOf(pairs), key) == Some(Strip(rows[i].td.value))
    {
      LastRowWins(pairs, i);
    }
  }

  /** A successfully built record: title, price and availability are their
      elements' text stripped, so the title is empty only when the heading is
      all whitespace; the description follows the anchor rule; the rating is
      what the first non-marker class names (and absent for any other word). */
  lemma ExtractedBookFields(page: DetailPage)
    requires Extractable(page)
    ensures ExtractBook(page).Success?
    ensures var b := ExtractBook(page).value;
      && b.title == Strip(page.heading.value)
      && b.price == Strip(page.price.value)
      && b.availability == Strip(page.availability.value)
      && b.rating == DecodeRating(page.starClasses.value).value
      && b.rating == RatingValue(page.starClasses.value[FirstRatingIndex(page.starClasses.value)])
      && IsStripped(b.title) && IsStripped(b.price) && IsStripped(b.availability)
      && (b.title == [] <==> AllSpace(page.heading.value))
      && (page.description.NoAnchor? ==> b.description == NoDescription)
      && (page.description.Anchor? ==> b.description == Strip(page.description.nextParagraph.value))
      && (b.rating.Some? ==> page.starClasses.value[FirstRatingIndex(page.starClasses.value)]
                               == RatingWord(b.rating.value))
  {
    ExtractBookSucceeds(page);
    var b := ExtractBook(page).value;
    StripEmpty(page.heading.value);
    var classes := page.starClasses.value;
    DecodeRatingCases(classes);
    if b.rating.Some? {
      RatingWordUnique(classes[FirstRatingIndex(classes)], b.rating.value);
    }
  }

  /** Table field `f` of a record. */
  function FieldOf(b: Book, f: TableField): Option<string> {
    match f
    case Upc => b.upc
    case ProductType => b.productType
    case PriceExclTax => b.priceExclTax
    case PriceInclTax => b.priceInclTax
    case Tax => b.tax
    case NumReviews => b.numReviews
  }

  /** Each of the six table fields of a built record is the lookup of its
      own header in the page's table. */
  lemma ExtractedTableField(page: DetailPage, f: TableField)
    requires Extractable(page)
    ensures ExtractBook(page).Success?
    ensures TableFieldFrom(page.table.value, HeaderOf(f), FieldOf(ExtractBook(page).value, f))
  {
    ExtractBookSucceeds(page);
    LookupTable(page.table.value, HeaderOf(f));
  }

  /** Position of the first class that is not the marker, when there is one. */
  function FirstRatingIndex(classes: seq<string>): (i: int)
    requires !OnlyMarker(classes)
    ensures FirstRatingClassAt(classes, i)
    decreases |classes|
  {
    if classes[0] != StarMarker then 0
    else
      assert !OnlyMarker(classes[1..]) by {
        var c :| c in classes && c != StarMarker;
        assert c in classes[1..];
      }
      1 + FirstRatingIndex(classes[1..])
  }

  // ---------------------------------------------------------------------
  // Independence of the six table fields

  /** The page's table rows without those whose stripped header is `key`. */
  function RowsWithout(rows: seq<Row>, key: string): seq<Row>
    decreases |rows|
  {
    if rows == [] then []
    else
      var last := rows[|rows| - 1];
      var drop := last.th.Some? && Strip(last.th.value) == key;
      RowsWithout(rows[..|rows| - 1], key) + (if drop then [] else [last])
  }

  /** The rows are stripped one after the other: a further complete row
      adds its own pair at the end. */
  lemma CompleteRowsSnoc(front: seq<Row>, last: Row)
    requires RowsComplete(front) && last.th.Some? && last.td.Some?
    ensures CompleteRows(front + [last]) == Some(CompleteRows(front).value + [RowText(last)])
  {
    var rows := front + [last];
    assert rows[..|rows| - 1] == front;
    assert rows[|rows| - 1] == last;
  }

  lemma {:induction false} CompleteRowsWithout(rows: seq<Row>, key: string)
    requires RowsComplete(rows)
    ensures CompleteRows(RowsWithout(rows, key)) == Some(PairsWithout(CompleteRows(rows).value, key))
    decreases |rows|
  {
    if rows != [] {
      var front := rows[..|rows| - 1];
      var last := rows[|rows| - 1];
      assert RowsComplete(front) by {
        assert forall i :: 0 <= i < |front| ==> front[i] == rows[i];
      }
      assert rows == front + [last];
      CompleteRowsWithout(front, key);
      CompleteRowsSnoc(front, last);
      var done := CompleteRows(front).value;
      var pairs := done + [RowText(last)];
      assert pairs[..|pairs| - 1] == done;
      var kept := RowsWithout(front, key);
      if Strip(last.th.value) != key {
        assert RowsWithout(rows, key) == kept + [last];
        CompleteRowsSnoc(kept, last);
      } else {
        assert RowsWithout(rows, key) == kept + [];
        assert kept + [] == kept;
        assert PairsWithout(pairs, key) == PairsWithout(done, key) + [];
        assert PairsWithout(done, key) + [] == PairsWithout(done, key);
      }
    }
  }

  /** The record with table field `f` set to absent. */
  function ClearField(b: Book, f: TableField): Book {
    match f
    case Upc => b.(upc := None)
    case ProductType => b.(productType := None)
    case PriceExclTax => b.(priceExclTax := None)
    case PriceInclTax => b.(priceInclTax := None)
    case Tax => b.(tax := None)
    case NumReviews => b.(numReviews := None)
  }

  /** Removing the rows of one table header from a page makes that one field
      absent and leaves every other field of the record as it was. */
  lemma MissingHeaderClearsOnlyItsField(page: DetailPage, f: TableField)
    requires ExtractBook(page).Success?
    ensures var rows := page.table.value;
      ExtractBook(page.(table := Some(RowsWithout(rows, HeaderOf(f)))))
        == Success(ClearField(ExtractBook(page).value, f))
  {
    var rows := page.table.value;
    var key := HeaderOf(f);
    var pairs := CompleteRows(rows).value;
    var b := ExtractBook(page).value;
    CompleteRowsWithout(rows, key);
    TableWithout(pairs, key);
    ExtractReplacingTable(page, rows);
    ExtractReplacingTable(page, RowsWithout(rows, key));
    WithTableWithout(b, TableOf(pairs), f);
  }

  /** Only the six table fields depend on the table. */
  lemma ExtractReplacingTable(page: DetailPage, rows: seq<Row>)
    requires ExtractBook(page).Success?
    requires RowsComplete(rows)
    ensures ExtractBook(page.(table := Some(rows)))
      == Success(WithTable(ExtractBook(page).value, TableOf(CompleteRows(rows).value)))
  {
    BookHeadIgnoresTable(page, Some(rows));
  }

  lemma WithTableWithout(b: Book, m: map<string, string>, f: TableField)
    ensures WithTable(b, m - {HeaderOf(f)}) == ClearField(WithTable(b, m), f)
  {
    var cleared := m - {HeaderOf(f)};
    forall g: TableField | g != f
      ensures Lookup(cleared, HeaderOf(g)) == Lookup(m, HeaderOf(g))
    {
      HeaderOfInjective(f, g);
    }
    assert Lookup(cleared, HeaderOf(f)) == None;
    match f
    case Upc =>
    case ProductType =>
    case PriceExclTax =>
    case PriceInclTax =>
    case Tax =>
    case NumReviews =>
  }

  /** The missing-tax case: a page whose table has no `Tax` row gives a record
      without tax and with every other field set as usual. */
  lemma MissingTaxRow(page: DetailPage)
    requires ExtractBook(page).Success?
    requires forall i :: 0 <= i < |page.table.value| ==> Strip(page.table.value[i].th.value) != HeaderOf(Tax)
    ensures ExtractBook(page).value.tax == None
    ensures ExtractBook(page).value.upc != None <==>
      exists i :: 0 <= i < |page.table.value| && Strip(page.table.value[i].th.value) == HeaderOf(Upc)
  {
    LookupTable(page.table.value, HeaderOf(Tax));
    LookupTable(page.table.value, HeaderOf(Upc));
  }

  // ---------------------------------------------------------------------
  // The record as the dictionary the source returns

  datatype JsonValue = JString(text: string) | JNumber(number: int) | JNull

  /** The eleven keys every record has, in the order the source writes them. */
  const RecordKeys := ["title", "price", "rating", "availability", "description",
                       "upc", "product_type", "price_excl_tax", "price_incl_tax",
                       "tax", "num_reviews"]

  function FromOption(o: Option<string>): JsonValue {
    match o
    case Some(s) => JString(s)
    case None => JNull
  }

  /** The dictionary literal built at the end of `get_book_data`, as its
      (key, value) entries in insertion order. */
  function Entries(b: Book): (e: seq<(string, JsonValue)>)
    ensures |e| == |RecordKeys| == 11
    ensures forall i :: 0 <= i < |e| ==> e[i].0 == RecordKeys[i]
  {
    [("title", JString(b.title)),
     ("price", JString(b.price)),
     ("rating", match b.rating case Some(n) => JNumber(n) case None => JNull),
     ("availability", JString(b.availability)),
     ("description", JString(b.description)),
     ("upc", FromOption(b.upc)),
     ("product_type", FromOption(b.productType)),
     ("price_excl_tax", FromOption(b.priceExclTax)),
     ("price_incl_tax", FromOption(b.priceInclTax)),
     ("tax", FromOption(b.tax)),
     ("num_reviews", FromOption(b.numReviews))]
  }

  function AsText(v: JsonValue): Option<string> {
    if v.JString? then Some(v.text) else None
  }

  function AsOptionalText(v: JsonValue): Option<Option<string>> {
    match v
    case JString(s) => Some(Some(s))
    case JNull => Some(None)
    case JNumber(_) => None
  }

  function AsRating(v: JsonValue): Option<Option<int>> {
    match v
    case JNumber(n) => Some(Some(n))
    case JNull => Some(None)
    case JString(_) => None
  }

  /** Reads a record back from entries laid out as `Entries` lays them out;
      `None` for anything else. */
  function FromEntries(e: seq<(string, JsonValue)>): Option<Book> {
    if |e| != |RecordKeys| || exists i :: 0 <= i < |e| && e[i].0 != RecordKeys[i] then None
    else
      var title, price, rating := AsText(e[0].1), AsText(e[1].1), AsRating(e[2].1);
      var availability, description := AsText(e[3].1), AsText(e[4].1);
      var upc, productType := AsOptionalText(e[5].1), AsOptionalText(e[6].1);
      var priceExcl, priceIncl := AsOptionalText(e[7].1), AsOptionalText(e[8].1);
      var tax, reviews := AsOptionalText(e[9].1), AsOptionalText(e[10].1);
      if || title.None? || price.None? || rating.None? || availability.None? || description.None?
         || upc.None? || productType.None? || priceExcl.None? || priceIncl.None? || tax.None? || reviews.None?
      then None
      else Some(Book(title.value, price.value, rating.value, availability.value, description.value,
                     upc.value, productType.value, priceExcl.value, priceIncl.value, tax.value, reviews.value))
  }

  /** The entries keep every field of the record. */
  lemma EntriesRoundTrip(b: Book)
    ensures FromEntries(Entries(b)) == Some(b)
  {
  }
}
