/** The pure part of `SlideshowManager.loadSlides`: the fetched sheet is
    parsed into rows; a failed fetch or a sheet with at most one row gives no
    slides; otherwise the header row is dropped, the rows with a blank title
    are filtered out and the rest become slide records with default texts. */
module SlideData {
  import opened JsString
  import opened Csv
  import opened ImageUrl

  /** The defaults of `row[i] || '<default>'`. */
  const NO_DESCRIPTION: string := "No description available"
  const UNTITLED: string := "Untitled"
  const MAIN_CAMPUS: string := "Main Campus"

  /** One slide record. */
  datatype Slide = Slide(imageUrl: string, description: string, title: string, campusId: string)

  /** What `fetch` and `response.text()` deliver: a transport failure, or a
      response with its HTTP status and body text. */
  datatype FetchResult = NetworkError | Response(status: int, body: string)

  /** `response.ok`: a status in the range 200 to 299. */
  predicate IsOk(status: int) {
    200 <= status <= 299
  }

  /** `row[i] || default`: a missing or empty field gives the default. */
  function FieldOr(row: Row, i: nat, default: string): string {
    if i < |row| && row[i] != "" then row[i] else default
  }

  /** `row[2] && row[2].trim() !== ''`: the title field is present and not
      blank. */
  predicate HasTitle(row: Row) {
    |row| > 2 && row[2] != "" && !IsBlank(row[2])
  }

  /** The record built for one kept row. */
  function ToSlide(row: Row): Slide {
    Slide(ProcessImageUrl(FieldOr(row, 0, "")),
          FieldOr(row, 1, NO_DESCRIPTION),
          FieldOr(row, 2, UNTITLED),
          FieldOr(row, 3, MAIN_CAMPUS))
  }

  /** `dataRows.filter(row => row[2] && row[2].trim() !== '')`. */
  function Titled(rows: seq<Row>): seq<Row>
    decreases |rows|
  {
    if |rows| == 0 then []
    else
      var row := rows[|rows| - 1];
      Titled(rows[..|rows| - 1]) + (if HasTitle(row) then [row] else [])
  }

  /** `.map(row => ({ ... }))`. */
  function ToSlides(rows: seq<Row>): (slides: seq<Slide>)
    ensures |slides| == |rows|
    ensures forall k :: 0 <= k < |rows| ==> slides[k] == ToSlide(rows[k])
  {
    seq(|rows|, k requires 0 <= k < |rows| => ToSlide(rows[k]))
  }

  /** The slides built from the parsed rows: none when there is at most one
      row, otherwise the titled rows after the header, in order. */
  function SlidesFromRows(rows: seq<Row>): seq<Slide> {
    if |rows| <= 1 then [] else ToSlides(Titled(rows[1..]))
  }

  /** The load succeeds, and `lastUpdateTime` is refreshed, only when the
      response is ok and its body parses into more than one row. */
  predicate LoadSucceeds(fetch: FetchResult) {
    fetch.Response? && IsOk(fetch.status) && |CsvRows(fetch.body)| > 1
  }

  /** The value `this.slides` holds after `loadSlides`. */
  function LoadedSlides(fetch: FetchResult): seq<Slide> {
    match fetch
    case NetworkError => []
    case Response(status, body) => if IsOk(status) then SlidesFromRows(CsvRows(body)) else []
  }

  /** The filter keeps exactly the rows with a non-blank title. */
  lemma {:induction false} TitledMembers(rows: seq<Row>, row: Row)
    ensures row in Titled(rows) <==> row in rows && HasTitle(row)
    decreases |rows|
  {
    if |rows| > 0 {
      var init := rows[..|rows| - 1];
      TitledMembers(init, row);
      assert rows == init + [rows[|rows| - 1]];
    }
  }

  /** The filter keeps the order of the rows and treats each row on its own. */
  lemma {:induction false} TitledAppend(a: seq<Row>, b: seq<Row>)
    ensures Titled(a + b) == Titled(a) + Titled(b)
    decreases |b|
  {
    if |b| == 0 {
      assert a + b == a;
    } else {
      var b' := b[..|b| - 1];
      TitledAppend(a, b');
      assert (a + b)[..|a + b| - 1] == a + b';
    }
  }

  /** A slide is built from a data row, that is a row after the first, whose
      title is not blank; and every such row yields a slide. */
  lemma SlidesMembers(rows: seq<Row>, s: Slide)
    ensures s in SlidesFromRows(rows) <==>
            exists k :: 1 <= k < |rows| && HasTitle(rows[k]) && s == ToSlide(rows[k])
  {
    if s in SlidesFromRows(rows) {
      SlideHasRow(rows, s);
    }
    if exists k :: 1 <= k < |rows| && HasTitle(rows[k]) && s == ToSlide(rows[k]) {
      var k :| 1 <= k < |rows| && HasTitle(rows[k]) && s == ToSlide(rows[k]);
      RowHasSlide(rows, k);
    }
  }

  /** Every slide comes from a titled data row. */
  lemma SlideHasRow(rows: seq<Row>, s: Slide)
    requires s in SlidesFromRows(rows)
    ensures exists k :: 1 <= k < |rows| && HasTitle(rows[k]) && s == ToSlide(rows[k])
  {
    var data := rows[1..];
    var kept := Titled(data);
    var j :| 0 <= j < |kept| && ToSlides(kept)[j] == s;
    TitledMembers(data, kept[j]);
    var k :| 0 <= k < |data| && data[k] == kept[j];
    assert rows[k + 1] == data[k];
  }

  /** Every titled data row yields a slide. */
  lemma RowHasSlide(rows: seq<Row>, k: int)
    requires 1 <= k < |rows| && HasTitle(rows[k])
    ensures ToSlide(rows[k]) in SlidesFromRows(rows)
  {
    var data := rows[1..];
    var kept := Titled(data);
    assert data[k - 1] == rows[k];
    TitledMembers(data, rows[k]);
    var j :| 0 <= j < |kept| && kept[j] == rows[k];
    assert ToSlides(kept)[j] == ToSlide(rows[k]);
  }

  /** A slide takes its title from the row's third field, which is never
      blank, so the `'Untitled'` default is never used; the description and
      the campus fall back to their defaults only when missing or empty, so
      no text of a slide is empty; the image link is the normalised first
      field. */
  lemma ToSlideFields(row: Row)
    requires HasTitle(row)
    ensures var s := ToSlide(row);
            && s.title == row[2] && !IsBlank(s.title)
            && s.description == (if row[1] == "" then NO_DESCRIPTION else row[1])
            && s.campusId == (if |row| > 3 && row[3] != "" then row[3] else MAIN_CAMPUS)
            && s.imageUrl == ProcessImageUrl(row[0])
            && s.description != "" && s.campusId != ""
  {
  }

  /** Every slide has a non-blank title and non-empty description and
      campus texts. */
  lemma SlidesFieldsNonEmpty(rows: seq<Row>)
    ensures forall s :: s in SlidesFromRows(rows) ==>
              !IsBlank(s.title) && s.description != "" && s.campusId != ""
  {
    forall s | s in SlidesFromRows(rows)
      ensures !IsBlank(s.title) && s.description != "" && s.campusId != ""
    {
      SlidesMembers(rows, s);
      var k :| 1 <= k < |rows| && HasTitle(rows[k]) && s == ToSlide(rows[k]);
      ToSlideFields(rows[k]);
    }
  }

  /** The filter never yields more rows than it is given. */
  lemma {:induction false} TitledLength(rows: seq<Row>)
    ensures |Titled(rows)| <= |rows|
    decreases |rows|
  {
    if |rows| > 0 {
      TitledLength(rows[..|rows| - 1]);
    }
  }

  /** There are never more slides than data rows. */
  lemma SlidesCount(rows: seq<Row>)
    ensures |SlidesFromRows(rows)| <= if |rows| <= 1 then 0 else |rows| - 1
  {
    if |rows| > 1 {
      TitledLength(rows[1..]);
    }
  }

  /** A header and two data rows of which the second has a blank or missing
      title give exactly one slide, built from the first data row. */
  lemma BlankTitleFiltered(header: Row, first: Row, second: Row)
    requires HasTitle(first)
    requires |second| <= 2 || IsBlank(second[2])
    ensures SlidesFromRows([header, first, second]) == [ToSlide(first)]
  {
    var rows := [header, first, second];
    assert rows[1..] == [first] + [second];
    TitledAppend([first], [second]);
    assert [first] == [] + [first];
    TitledAppend([], [first]);
  }

  /** A transport failure or a response that is not ok leaves no slides,
      whatever the body. */
  lemma FailedFetchNoSlides(fetch: FetchResult)
    requires fetch.NetworkError? || !IsOk(fetch.status)
    ensures LoadedSlides(fetch) == [] && !LoadSucceeds(fetch)
  {
  }

  /** Slides are only ever loaded by a successful load, and a successful
      load yields the titled data rows of the parsed body. */
  lemma LoadedOnlyOnSuccess(fetch: FetchResult)
    ensures LoadedSlides(fetch) != [] ==> LoadSucceeds(fetch)
    ensures LoadSucceeds(fetch) ==> LoadedSlides(fetch) == ToSlides(Titled(CsvRows(fetch.body)[1..]))
  {
  }
}
