/**
 * Validation of the uploaded manifest: the MIME type, the header line and
 * each row's fields and image URLs, with the rejection each check produces.
 */
module Manifest {
  import opened Wrappers
  import opened Text
  import opened Sequences

  /** A parsed CSV row: column name to cell text. A column the row has no
      cell for is absent from the map (`undefined` in JavaScript). */
  type Row = map<string, string>

  const CsvMimeType: string := "text/csv"

  const SerialNumberHeader: string := "S. No."
  const ProductNameHeader: string := "Product Name"
  const ImageUrlsHeader: string := "Input Image Urls"
  const ExpectedHeaders: seq<string> := [SerialNumberHeader, ProductNameHeader, ImageUrlsHeader]

  /** Why an upload is turned away; each maps to one 400 response. */
  datatype Rejection =
    | NoFileUploaded
    | NotCsvFile
    | HeadersMissing(names: seq<string>)
    | FieldsEmpty
    | UrlsInvalid(urls: seq<string>)

  /** The `message` of the 400 response body. */
  function Message(r: Rejection): string {
    match r
    case NoFileUploaded => "No file uploaded"
    case NotCsvFile => "Invalid file type. Please upload a CSV file."
    case HeadersMissing(names) => "Missing required headers: " + Join(names, ", ")
    case FieldsEmpty => "CSV contains empty fields"
    case UrlsInvalid(urls) => "Invalid image URLs: " + Join(urls, ", ")
  }

  /** The message tells the reason apart: equal messages come from
      rejections of the same kind. */
  lemma {:induction false} MessageTellsReason(a: Rejection, b: Rejection)
    requires Message(a) == Message(b)
    ensures a.NoFileUploaded? == b.NoFileUploaded? && a.NotCsvFile? == b.NotCsvFile?
    ensures a.HeadersMissing? == b.HeadersMissing? && a.FieldsEmpty? == b.FieldsEmpty?
    ensures a.UrlsInvalid? == b.UrlsInvalid?
  {
    assert |Message(a)| > 8 && |Message(b)| > 8;
    assert Message(a)[0] == Message(b)[0] && Message(a)[8] == Message(b)[8];
  }

  /** The MIME check, done before the file is read at all: `file` is the
      uploaded file's MIME type, `None` when no file was uploaded. */
  function CheckFile(file: Option<string>): (r: Option<Rejection>)
    ensures r == None <==> file == Some(CsvMimeType)
    ensures r != None ==> r == Some(if file == None then NoFileUploaded else NotCsvFile)
  {
    if file.None? then Some(NoFileUploaded)
    else if file.value != CsvMimeType then Some(NotCsvFile)
    else None
  }

  // ------------------------------------------------------------------
  // header line

  /** The expected headers the actual header line lacks, in the order
      the expected headers are listed. */
  function MissingHeaders(headers: seq<string>): (r: seq<string>)
    ensures forall h :: h in r <==> h in ExpectedHeaders && h !in headers
  {
    Absent(ExpectedHeaders, headers)
  }

  /** `names.filter(name => !present.includes(name))`. */
  function Absent(names: seq<string>, present: seq<string>): (r: seq<string>)
    ensures forall h :: h in r <==> h in names && h !in present
    ensures IsSubsequence(r, names)
  {
    if names == [] then []
    else
      var rest := Absent(names[1..], present);
      assert names == [names[0]] + names[1..];
      if names[0] in present then rest
      else
        assert ([names[0]] + rest)[1..] == rest;
        [names[0]] + rest
  }

  /** The missing-header list written out: each name at most once, in the
      fixed order, and empty exactly when all three are present. */
  lemma {:induction false} MissingHeadersExactly(headers: seq<string>)
    ensures MissingHeaders(headers)
      == (if SerialNumberHeader in headers then [] else [SerialNumberHeader])
       + (if ProductNameHeader in headers then [] else [ProductNameHeader])
       + (if ImageUrlsHeader in headers then [] else [ImageUrlsHeader])
    ensures MissingHeaders(headers) == [] <==> forall h :: h in ExpectedHeaders ==> h in headers
  {
    var e := ExpectedHeaders;
    AbsentCons(e, headers);
    assert e[1..] == [ProductNameHeader, ImageUrlsHeader];
    AbsentCons(e[1..], headers);
    assert e[1..][1..] == [ImageUrlsHeader];
    AbsentCons(e[1..][1..], headers);
    assert e[1..][1..][1..] == [];
  }

  /** Each absent name is kept as often as it is listed, a present one never. */
  lemma {:induction false} AbsentCounts(names: seq<string>, present: seq<string>)
    ensures forall h :: multiset(Absent(names, present))[h] == if h in present then 0 else multiset(names)[h]
  {
    if names != [] {
      AbsentCounts(names[1..], present);
      AbsentCons(names, present);
      assert names == [names[0]] + names[1..];
    }
  }

  lemma AbsentCons(names: seq<string>, present: seq<string>)
    requires names != []
    ensures Absent(names, present)
      == (if names[0] in present then [] else [names[0]]) + Absent(names[1..], present)
  {
  }

  // ------------------------------------------------------------------
  // rows

  /** The destructured cell is truthy: present and not the empty string. */
  predicate Filled(row: Row, column: string) {
    column in row && row[column] != ""
  }

  predicate HasEmptyField(row: Row) {
    !Filled(row, SerialNumberHeader) || !Filled(row, ProductNameHeader) || !Filled(row, ImageUrlsHeader)
  }

  /** `field.split(',').map(url => url.trim())`: one token per comma-separated
      piece, empty tokens kept (see `ImageUrlsPieces`). */
  function ImageUrls(field: string): seq<string> {
    var pieces := Split(field, ',');
    seq(|pieces|, k requires 0 <= k < |pieces| => Trim(pieces[k]))
  }

  /** The tokens are the trimmed pieces between commas, in order: one more
      than there are commas, none holding a comma or surrounding white space. */
  lemma {:induction false} ImageUrlsPieces(field: string)
    ensures var pieces, r := Split(field, ','), ImageUrls(field);
      && |r| == |pieces| == Count(field, ',') + 1
      && (forall k :: 0 <= k < |r| ==> r[k] == Trim(pieces[k]))
      && (forall k :: 0 <= k < |r| ==> ',' !in r[k])
      && (forall k :: 0 <= k < |r| ==> r[k] == [] || (!IsSpace(r[k][0]) && !IsSpace(r[k][|r[k]| - 1])))
  {
    var pieces, r := Split(field, ','), ImageUrls(field);
    SplitCount(field, ',');
    SplitPiecesFree(field, ',');
    forall k | 0 <= k < |r| ensures ',' !in r[k] {
      TrimKeepsOut(pieces[k], ',');
    }
  }

  /** Reading back a comma-joined list of trimmed, comma-free tokens, with
      any white space around each token, gives the tokens. */
  lemma {:induction false} ImageUrlsOfJoin(tokens: seq<string>)
    requires |tokens| >= 1
    requires forall k :: 0 <= k < |tokens| ==> ',' !in tokens[k]
    requires forall k :: 0 <= k < |tokens| ==> tokens[k] == [] || (!IsSpace(tokens[k][0]) && !IsSpace(tokens[k][|tokens[k]| - 1]))
    ensures ImageUrls(Join(tokens, [','])) == tokens
  {
    var field := Join(tokens, [',']);
    SplitJoin(tokens, ',');
    assert Split(field, ',') == tokens;
    ImageUrlsPieces(field);
    var r := ImageUrls(field);
    assert |r| == |tokens|;
  }

  /** A trailing comma yields a final empty token, which the URL check
      then judges like any other. */
  lemma {:induction false} TrailingCommaKeepsEmptyToken(field: string)
    ensures var r := ImageUrls(field + [',']);
      |r| == |ImageUrls(field)| + 1 && r[|r| - 1] == ""
  {
    SplitAppend(field, "", ',');
    assert field + [','] + "" == field + [','];
    ImageUrlsPieces(field);
    ImageUrlsPieces(field + [',']);
  }

  /** `urls.filter(url => !isValidURL(url))`. */
  function InvalidUrls(urls: seq<string>, isValidUrl: string -> bool): (r: seq<string>)
    ensures forall u :: multiset(r)[u] == if isValidUrl(u) then 0 else multiset(urls)[u]
    ensures IsSubsequence(r, urls)
    ensures r == [] <==> forall k :: 0 <= k < |urls| ==> isValidUrl(urls[k])
  {
    FilterAllOrNothing(urls, u => !isValidUrl(u));
    Filter(urls, u => !isValidUrl(u))
  }

  /** The checks one row goes through, in the order the handler makes them:
      the three cells first, then every token of the URL cell. On success
      the row's image URL tokens. */
  function CheckRow(row: Row, isValidUrl: string -> bool): Result<seq<string>, Rejection> {
    if HasEmptyField(row) then Err(FieldsEmpty)
    else
      var urls := ImageUrls(row[ImageUrlsHeader]);
      var invalid := InvalidUrls(urls, isValidUrl);
      if invalid != [] then Err(UrlsInvalid(invalid)) else Ok(urls)
  }

  /** A row is rejected for empty fields exactly when a cell is absent or
      empty; otherwise it is accepted, with its tokens, exactly when every
      token is a valid URL, and rejected with the invalid ones otherwise. */
  lemma CheckRowMeaning(row: Row, isValidUrl: string -> bool)
    ensures var r := CheckRow(row, isValidUrl);
      && (r == Err(FieldsEmpty) <==> HasEmptyField(row))
      && (r.Ok? ==> r.value == ImageUrls(row[ImageUrlsHeader]))
      && (r.Ok? <==> !HasEmptyField(row) && forall u :: u in ImageUrls(row[ImageUrlsHeader]) ==> isValidUrl(u))
      && (r.Err? && !HasEmptyField(row) ==> r.error == UrlsInvalid(InvalidUrls(ImageUrls(row[ImageUrlsHeader]), isValidUrl)))
  {
  }

  /** All or nothing: a single failing token rejects the whole row, and the
      rejection lists every failing token, in order, and nothing else. */
  lemma {:induction false} OneBadTokenRejectsRow(row: Row, isValidUrl: string -> bool, k: nat)
    requires !HasEmptyField(row)
    requires k < |ImageUrls(row[ImageUrlsHeader])|
    requires !isValidUrl(ImageUrls(row[ImageUrlsHeader])[k])
    ensures CheckRow(row, isValidUrl).Err?
    ensures var bad := CheckRow(row, isValidUrl).error.urls;
      ImageUrls(row[ImageUrlsHeader])[k] in bad
      && (forall u :: u in bad <==> u in ImageUrls(row[ImageUrlsHeader]) && !isValidUrl(u))
  {
    var urls := ImageUrls(row[ImageUrlsHeader]);
    var bad := InvalidUrls(urls, isValidUrl);
    assert multiset(bad)[urls[k]] == multiset(urls)[urls[k]] > 0;
    forall u ensures u in bad <==> u in urls && !isValidUrl(u) {
      assert multiset(bad)[u] == if isValidUrl(u) then 0 else multiset(urls)[u];
    }
  }
}
