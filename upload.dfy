/**
 * The `/upload` handler: the MIME check, the header check made by the
 * `headers` event, the rows gathered by the `data` events, and the loop of
 * the `end` event that validates each row in manifest order, compresses its
 * images and assembles the one ProcessingRequest that is saved.
 *
 * `Handle` is the reference definition of the whole handler; `Upload` is the
 * handler as the source runs it, step by step, and is proved equal to it.
 */
module Upload {
  import opened Wrappers
  import opened Text
  import opened Manifest
  import opened Records
  import opened Images

  /** The one terminal response: a 400 with the rejection's message, or the
      saved request, answered with 200 and its `requestId`. */
  datatype Outcome = Rejected(reason: Rejection) | Done(request: ProcessingRequest)

  /** Where the row loop stands: the products built so far or the rejection
      that ended it, and the image URLs fetched so far, in request order. */
  datatype Progress = Progress(result: Result<seq<Product>, Rejection>, fetched: seq<string>)

  /** One pass of the row loop: the row's checks, then its product. */
  function ProcessRow(row: Row, rowIndex: nat, isValidUrl: string -> bool,
                      imageOk: (nat, nat) -> bool, port: string): Result<Product, Rejection>
  {
    match CheckRow(row, isValidUrl)
    case Err(e) => Err(e)
    case Ok(urls) => Ok(MakeProduct(row[SerialNumberHeader], row[ProductNameHeader], urls, rowIndex, imageOk, port))
  }

  /** What the loop does with the row at a given index. */
  type RowStep = (Row, nat) -> Result<Product, Rejection>

  function Processor(isValidUrl: string -> bool, imageOk: (nat, nat) -> bool, port: string): RowStep {
    (row: Row, rowIndex: nat) => ProcessRow(row, rowIndex, isValidUrl, imageOk, port)
  }

  /** The row loop over `rows`, stopping at the first rejected row; each
      accepted row's tokens are fetched before the next row is looked at. */
  function RunRows(rows: seq<Row>, step: RowStep): Progress {
    if rows == [] then Progress(Ok([]), [])
    else
      var before := RunRows(rows[..|rows| - 1], step);
      if before.result.Err? then before
      else
        match step(rows[|rows| - 1], |rows| - 1)
        case Err(e) => Progress(Err(e), before.fetched)
        case Ok(p) => Progress(Ok(before.result.value + [p]), before.fetched + p.inputImageUrls)
  }

  /** The input URL lists of the products, concatenated in order. */
  function Inputs(products: seq<Product>): seq<string> {
    if products == [] then []
    else Inputs(products[..|products| - 1]) + products[|products| - 1].inputImageUrls
  }

  /** The URL tokens of every row, concatenated in manifest order. */
  function AllTokens(rows: seq<Row>): seq<string> {
    if rows == [] then []
    else
      var last := rows[|rows| - 1];
      AllTokens(rows[..|rows| - 1]) + (if ImageUrlsHeader in last then ImageUrls(last[ImageUrlsHeader]) else [])
  }

  /** The handler, as one definition: its response, and the image URLs it
      fetched. */
  function Handle(file: Option<string>, headers: Option<seq<string>>, rows: seq<Row>, isValidUrl: string -> bool,
                  imageOk: (nat, nat) -> bool, requestId: string, port: string): (Outcome, seq<string>)
  {
    match CheckFile(file)
    case Some(r) => (Rejected(r), [])
    case None =>
      if headers.Some? && MissingHeaders(headers.value) != [] then
        (Rejected(HeadersMissing(MissingHeaders(headers.value))), [])
      else Finish(RunRows(rows, Processor(isValidUrl, imageOk, port)), requestId)
  }

  /** The response once the row loop is over: its rejection, or the request
      holding its products. */
  function Finish(progress: Progress, requestId: string): (Outcome, seq<string>) {
    match progress.result
    case Err(e) => (Rejected(e), progress.fetched)
    case Ok(products) => (Done(ProcessingRequest(requestId, Implemented, products)), progress.fetched)
  }

  // ------------------------------------------------------------------
  // the handler as the source runs it

  /** `file` is the uploaded file's MIME type (`None`: no file), `headers` and
      `rows` what the CSV parser emits (`headers` is `None` when it emits no
      `headers` event, as for a file without any line), `isValidUrl` stands for `isValidURL`,
      `imageOk(row, i)` for the outcome of fetching and compressing token `i`
      of row `row`, `requestId` for the `uuidv4()` drawn before parsing and
      `port` for the PORT environment variable. */
  method Upload(file: Option<string>, headers: Option<seq<string>>, rows: seq<Row>, isValidUrl: string -> bool,
                imageOk: (nat, nat) -> bool, requestId: string, port: string)
    returns (outcome: Outcome, fetched: seq<string>)
    ensures (outcome, fetched) == Handle(file, headers, rows, isValidUrl, imageOk, requestId, port)
  {
    fetched := [];
    if file.None? {
      return Rejected(NoFileUploaded), fetched;
    }
    if file.value != CsvMimeType {
      return Rejected(NotCsvFile), fetched;
    }
    var isValidFormat := true;
    var csvData: seq<Row> := [];

    // the 'headers' event, when the parser emits one
    var missingHeaders: seq<string> := [];
    if headers.Some? {
      missingHeaders := MissingHeaders(headers.value);
      if |missingHeaders| > 0 {
        isValidFormat := false;
      }
    }

    // the 'data' events: rows are collected only while the format is valid
    for i := 0 to |rows|
      invariant csvData == if isValidFormat then rows[..i] else []
    {
      if isValidFormat {
        csvData := csvData + [rows[i]];
      }
    }

    // the 'end' event
    if !isValidFormat {
      return Rejected(HeadersMissing(missingHeaders)), fetched;
    }
    assert csvData == rows;
    outcome, fetched := OnEnd(csvData, isValidUrl, imageOk, requestId, port);
  }

  /** The `end` callback once the format is known to be valid: each row in
      turn is checked, its images fetched and its product appended; the
      first rejected row returns at once. */
  method OnEnd(csvData: seq<Row>, isValidUrl: string -> bool, imageOk: (nat, nat) -> bool,
               requestId: string, port: string)
    returns (outcome: Outcome, fetched: seq<string>)
    ensures (outcome, fetched) == Finish(RunRows(csvData, Processor(isValidUrl, imageOk, port)), requestId)
  {
    fetched := [];
    var products: seq<Product> := [];
    var i := 0;
    while i < |csvData|
      invariant 0 <= i <= |csvData|
      invariant RunRows(csvData[..i], Processor(isValidUrl, imageOk, port)) == Progress(Ok(products), fetched)
    {
      var row := csvData[i];
      if !Filled(row, SerialNumberHeader) || !Filled(row, ProductNameHeader) || !Filled(row, ImageUrlsHeader) {
        RowRejectedStep(csvData, i, isValidUrl, imageOk, port);
        return Rejected(FieldsEmpty), fetched;
      }
      var serialNumber, productName, inputImageUrls :=
        row[SerialNumberHeader], row[ProductNameHeader], row[ImageUrlsHeader];
      var imageUrls := ImageUrls(inputImageUrls);
      var invalidUrls := InvalidUrls(imageUrls, isValidUrl);
      if |invalidUrls| > 0 {
        RowRejectedStep(csvData, i, isValidUrl, imageOk, port);
        return Rejected(UrlsInvalid(invalidUrls)), fetched;
      }
      fetched := fetched + imageUrls;
      var compressedImageUrls := CompressAll(productName, |imageUrls|, i, imageOk, port);
      var product := Product(ParseInt(serialNumber), productName, imageUrls, FilterBoolean(compressedImageUrls));
      RowAcceptedStep(csvData, i, isValidUrl, imageOk, port, product);
      products := products + [product];
      i := i + 1;
    }
    assert csvData[..i] == csvData;
    outcome := Done(ProcessingRequest(requestId, Implemented, products));
  }

  // ------------------------------------------------------------------
  // properties of the row loop

  /** A row passes the loop exactly when it passes its checks; it is then
      the product made from its cells and tokens, and otherwise the
      rejection of its checks. */
  lemma ProcessRowMeaning(row: Row, rowIndex: nat, isValidUrl: string -> bool,
                          imageOk: (nat, nat) -> bool, port: string)
    ensures var r := Processor(isValidUrl, imageOk, port)(row, rowIndex);
      && (r.Ok? <==> CheckRow(row, isValidUrl).Ok?)
      && (r.Err? ==> r.error == CheckRow(row, isValidUrl).error)
      && (r.Ok? ==> && !HasEmptyField(row)
                    && r.value == MakeProduct(row[SerialNumberHeader], row[ProductNameHeader],
                                              ImageUrls(row[ImageUrlsHeader]), rowIndex, imageOk, port))
  {
  }

  /** A rejected row ends the loop with its rejection. */
  lemma {:induction false} RowRejectedStep(rows: seq<Row>, i: nat, isValidUrl: string -> bool,
                                           imageOk: (nat, nat) -> bool, port: string)
    requires i < |rows|
    requires RunRows(rows[..i], Processor(isValidUrl, imageOk, port)).result.Ok?
    requires CheckRow(rows[i], isValidUrl).Err?
    ensures RunRows(rows, Processor(isValidUrl, imageOk, port))
         == Progress(Err(CheckRow(rows[i], isValidUrl).error), RunRows(rows[..i], Processor(isValidUrl, imageOk, port)).fetched)
  {
    ProcessRowMeaning(rows[i], i, isValidUrl, imageOk, port);
    StepRejected(rows, i, Processor(isValidUrl, imageOk, port));
  }

  /** An accepted row adds its product and fetches its tokens. */
  lemma {:induction false} RowAcceptedStep(rows: seq<Row>, i: nat, isValidUrl: string -> bool,
                                           imageOk: (nat, nat) -> bool, port: string, product: Product)
    requires i < |rows|
    requires RunRows(rows[..i], Processor(isValidUrl, imageOk, port)).result.Ok?
    requires !HasEmptyField(rows[i])
    requires InvalidUrls(ImageUrls(rows[i][ImageUrlsHeader]), isValidUrl) == []
    requires var urls := ImageUrls(rows[i][ImageUrlsHeader]);
      product == Product(ParseInt(rows[i][SerialNumberHeader]), rows[i][ProductNameHeader], urls,
                         FilterBoolean(CompressAll(rows[i][ProductNameHeader], |urls|, i, imageOk, port)))
    ensures var before := RunRows(rows[..i], Processor(isValidUrl, imageOk, port));
      RunRows(rows[..i + 1], Processor(isValidUrl, imageOk, port))
        == Progress(Ok(before.result.value + [product]), before.fetched + product.inputImageUrls)
  {
    assert rows[..i + 1][..i] == rows[..i];
    var urls := ImageUrls(rows[i][ImageUrlsHeader]);
    assert CheckRow(rows[i], isValidUrl) == Ok(urls);
    assert Processor(isValidUrl, imageOk, port)(rows[i], i) == Ok(product);
  }

  /** A rejected step ends the loop with its rejection. */
  lemma {:induction false} StepRejected(rows: seq<Row>, i: nat, step: RowStep)
    requires i < |rows|
    requires RunRows(rows[..i], step).result.Ok?
    requires step(rows[i], i).Err?
    ensures RunRows(rows, step) == Progress(Err(step(rows[i], i).error), RunRows(rows[..i], step).fetched)
  {
    assert rows[..i + 1][..i] == rows[..i];
    RejectionSticks(rows, i + 1, |rows|, step);
    assert rows[..|rows|] == rows;
  }

  /** Once a row is rejected, later rows change nothing. */
  lemma {:induction false} RejectionSticks(rows: seq<Row>, k: nat, m: nat, step: RowStep)
    requires k <= m <= |rows|
    requires RunRows(rows[..k], step).result.Err?
    ensures RunRows(rows[..m], step) == RunRows(rows[..k], step)
  {
    if m > k {
      RejectionSticks(rows, k, m - 1, step);
      assert rows[..m][..m - 1] == rows[..m - 1];
    }
  }

  /** The loop gets through all rows exactly when every step succeeds. */
  lemma {:induction false} RunRowsOkIff(rows: seq<Row>, step: RowStep)
    ensures RunRows(rows, step).result.Ok? <==> forall k :: 0 <= k < |rows| ==> step(rows[k], k).Ok?
  {
    if rows != [] {
      var n := |rows| - 1;
      var init := rows[..n];
      RunRowsOkIff(init, step);
      assert forall k :: 0 <= k < n ==> init[k] == rows[k];
    }
  }

  /** When it gets through, the loop holds one product per row, in manifest
      order, and has fetched every product's input URLs in that order. */
  lemma {:induction false} RunRowsAccepted(rows: seq<Row>, step: RowStep)
    requires RunRows(rows, step).result.Ok?
    ensures var p := RunRows(rows, step);
      && |p.result.value| == |rows|
      && p.fetched == Inputs(p.result.value)
      && forall k :: 0 <= k < |rows| ==> step(rows[k], k) == Ok(p.result.value[k])
  {
    if rows != [] {
      var n := |rows| - 1;
      var init := rows[..n];
      var before := RunRows(init, step);
      assert before.result.Ok?;
      RunRowsAccepted(init, step);
      var last := step(rows[n], n);
      assert last.Ok?;
      var ps := before.result.value + [last.value];
      assert RunRows(rows, step) == Progress(Ok(ps), before.fetched + last.value.inputImageUrls);
      assert ps[..n] == before.result.value;
      assert Inputs(ps) == Inputs(before.result.value) + last.value.inputImageUrls;
      forall k | 0 <= k < n ensures step(rows[k], k) == Ok(ps[k]) {
        assert init[k] == rows[k];
      }
    }
  }

  /** The loop rejects at the first failing step, with that step's
      rejection: the rows after it are never looked at and the URLs fetched
      are the input URLs of the products built before it. */
  lemma {:induction false} RunRowsStopsAtFirstBad(rows: seq<Row>, k: nat, step: RowStep)
    requires k < |rows|
    requires forall j :: 0 <= j < k ==> step(rows[j], j).Ok?
    requires step(rows[k], k).Err?
    ensures RunRows(rows, step).result == Err(step(rows[k], k).error)
    ensures RunRows(rows, step).fetched == RunRows(rows[..k], step).fetched
    ensures RunRows(rows[..k], step).result.Ok?
  {
    var before := rows[..k];
    assert forall j :: 0 <= j < |before| ==> before[j] == rows[j];
    RunRowsOkIff(before, step);
    StepRejected(rows, k, step);
  }

  /** The URLs fetched for accepted rows are those rows' tokens. */
  lemma {:induction false} InputsAreTokens(rows: seq<Row>, products: seq<Product>)
    requires |products| == |rows|
    requires forall k :: 0 <= k < |rows| ==>
      ImageUrlsHeader in rows[k] && products[k].inputImageUrls == ImageUrls(rows[k][ImageUrlsHeader])
    ensures Inputs(products) == AllTokens(rows)
  {
    if rows != [] {
      var n := |rows| - 1;
      InputsAreTokens(rows[..n], products[..n]);
    }
  }

  /** When every row passes its checks, the loop gets through and each row
      becomes its product; every row's tokens are fetched. */
  lemma {:induction false} AcceptedRows(rows: seq<Row>, isValidUrl: string -> bool,
                                        imageOk: (nat, nat) -> bool, port: string)
    requires forall k :: 0 <= k < |rows| ==> CheckRow(rows[k], isValidUrl).Ok?
    ensures var p := RunRows(rows, Processor(isValidUrl, imageOk, port));
      && p.result.Ok?
      && |p.result.value| == |rows|
      && p.fetched == AllTokens(rows)
      && forall k :: 0 <= k < |rows| ==>
           && !HasEmptyField(rows[k])
           && p.result.value[k] == MakeProduct(rows[k][SerialNumberHeader], rows[k][ProductNameHeader],
                                               ImageUrls(rows[k][ImageUrlsHeader]), k, imageOk, port)
  {
    var step := Processor(isValidUrl, imageOk, port);
    StepsOkIff(rows, isValidUrl, imageOk, port);
    RunRowsOkIff(rows, step);
    RunRowsAccepted(rows, step);
    var ps := RunRows(rows, step).result.value;
    forall k | 0 <= k < |rows|
      ensures !HasEmptyField(rows[k])
      ensures ps[k] == MakeProduct(rows[k][SerialNumberHeader], rows[k][ProductNameHeader],
                                   ImageUrls(rows[k][ImageUrlsHeader]), k, imageOk, port)
    {
      ProcessRowMeaning(rows[k], k, isValidUrl, imageOk, port);
    }
    forall k | 0 <= k < |rows|
      ensures ImageUrlsHeader in rows[k] && ps[k].inputImageUrls == ImageUrls(rows[k][ImageUrlsHeader])
    {
      ProductOutputs(rows[k][SerialNumberHeader], rows[k][ProductNameHeader],
                     ImageUrls(rows[k][ImageUrlsHeader]), k, imageOk, port);
    }
    InputsAreTokens(rows, ps);
  }

  // ------------------------------------------------------------------
  // properties of the handler

  /** Without a CSV file nothing is read: the response depends on the MIME
      type alone and no image is fetched. */
  lemma RejectedBeforeReading(file: Option<string>, headers: Option<seq<string>>, rows: seq<Row>, isValidUrl: string -> bool,
                              imageOk: (nat, nat) -> bool, requestId: string, port: string)
    requires file != Some(CsvMimeType)
    ensures Handle(file, headers, rows, isValidUrl, imageOk, requestId, port)
         == (Rejected(if file == None then NoFileUploaded else NotCsvFile), [])
  {
  }

  /** A header line lacking a required column is rejected with the missing
      names, whatever the rows hold: no row is validated and no image fetched. */
  lemma MissingHeadersRejectBeforeRows(file: Option<string>, headers: Option<seq<string>>, rows: seq<Row>,
                                       isValidUrl: string -> bool, imageOk: (nat, nat) -> bool,
                                       requestId: string, port: string)
    requires file == Some(CsvMimeType)
    requires headers.Some? && exists h :: h in ExpectedHeaders && h !in headers.value
    ensures Handle(file, headers, rows, isValidUrl, imageOk, requestId, port)
         == (Rejected(HeadersMissing(MissingHeaders(headers.value))), [])
  {
    MissingHeadersExactly(headers.value);
  }

  /** Without a header line the header check never runs: an upload the
      parser finds no line in is saved as a request without products. */
  lemma NoHeaderLineSavesEmptyRequest(file: Option<string>, isValidUrl: string -> bool,
                                      imageOk: (nat, nat) -> bool, requestId: string, port: string)
    requires file == Some(CsvMimeType)
    ensures Handle(file, None, [], isValidUrl, imageOk, requestId, port)
         == (Done(ProcessingRequest(requestId, Implemented, [])), [])
  {
  }

  /** The loop's steps succeed exactly where the rows pass their checks. */
  lemma {:induction false} StepsOkIff(rows: seq<Row>, isValidUrl: string -> bool,
                                      imageOk: (nat, nat) -> bool, port: string)
    ensures forall k :: 0 <= k < |rows| ==>
      (Processor(isValidUrl, imageOk, port)(rows[k], k).Ok? <==> CheckRow(rows[k], isValidUrl).Ok?)
  {
    forall k | 0 <= k < |rows|
      ensures Processor(isValidUrl, imageOk, port)(rows[k], k).Ok? <==> CheckRow(rows[k], isValidUrl).Ok?
    {
      ProcessRowMeaning(rows[k], k, isValidUrl, imageOk, port);
    }
  }

  /** A request is saved exactly when the file is a CSV, the header line,
      if the parser emits one, has all three headers, and every row passes
      its checks. */
  lemma {:induction false} DoneIff(file: Option<string>, headers: Option<seq<string>>, rows: seq<Row>, isValidUrl: string -> bool,
                                   imageOk: (nat, nat) -> bool, requestId: string, port: string)
    ensures Handle(file, headers, rows, isValidUrl, imageOk, requestId, port).0.Done?
        <==> && file == Some(CsvMimeType)
             && (headers.None? || forall h :: h in ExpectedHeaders ==> h in headers.value)
             && (forall k :: 0 <= k < |rows| ==> CheckRow(rows[k], isValidUrl).Ok?)
  {
    if headers.Some? {
      MissingHeadersExactly(headers.value);
    }
    RunRowsOkIff(rows, Processor(isValidUrl, imageOk, port));
    StepsOkIff(rows, isValidUrl, imageOk, port);
  }

  /** The saved request: the id drawn before parsing, status 'Implemented',
      one product per row in manifest order, each with the row's serial
      number, name and trimmed tokens, and as outputs the URLs of its
      successful images in token order. Every row's tokens were fetched. */
  lemma {:induction false} DoneRecord(file: Option<string>, headers: Option<seq<string>>, rows: seq<Row>, isValidUrl: string -> bool,
                                      imageOk: (nat, nat) -> bool, requestId: string, port: string)
    requires Handle(file, headers, rows, isValidUrl, imageOk, requestId, port).0.Done?
    ensures var (outcome, fetched) := Handle(file, headers, rows, isValidUrl, imageOk, requestId, port);
      var request := outcome.request;
      && request.requestId == requestId
      && request.status == Implemented
      && |request.products| == |rows|
      && fetched == AllTokens(rows)
      && forall k :: 0 <= k < |rows| ==>
           && !HasEmptyField(rows[k])
           && var p := request.products[k];
              && p.serialNumber == ParseInt(rows[k][SerialNumberHeader])
              && p.productName == rows[k][ProductNameHeader]
              && p.inputImageUrls == ImageUrls(rows[k][ImageUrlsHeader])
              && p.outputImageUrls == UrlsAt(port, p.productName, Successes(k, |p.inputImageUrls|, imageOk))
  {
    DoneIff(file, headers, rows, isValidUrl, imageOk, requestId, port);
    AcceptedRows(rows, isValidUrl, imageOk, port);
    var ps := RunRows(rows, Processor(isValidUrl, imageOk, port)).result.value;
    forall k | 0 <= k < |rows|
      ensures ps[k].serialNumber == ParseInt(rows[k][SerialNumberHeader])
      ensures ps[k].productName == rows[k][ProductNameHeader]
      ensures ps[k].inputImageUrls == ImageUrls(rows[k][ImageUrlsHeader])
      ensures ps[k].outputImageUrls == UrlsAt(port, ps[k].productName, Successes(k, |ps[k].inputImageUrls|, imageOk))
    {
      ProductOutputs(rows[k][SerialNumberHeader], rows[k][ProductNameHeader],
                     ImageUrls(rows[k][ImageUrlsHeader]), k, imageOk, port);
    }
  }

  /** The first rejected row decides the response: its rejection is returned,
      the rows after it play no part, and only the images of the rows before
      it were fetched. Nothing is saved. */
  lemma {:induction false} FirstBadRowRejects(file: Option<string>, headers: Option<seq<string>>, rows: seq<Row>, k: nat,
                                              isValidUrl: string -> bool, imageOk: (nat, nat) -> bool,
                                              requestId: string, port: string)
    requires file == Some(CsvMimeType)
    requires headers.None? || forall h :: h in ExpectedHeaders ==> h in headers.value
    requires k < |rows|
    requires forall j :: 0 <= j < k ==> CheckRow(rows[j], isValidUrl).Ok?
    requires CheckRow(rows[k], isValidUrl).Err?
    ensures Handle(file, headers, rows, isValidUrl, imageOk, requestId, port)
         == (Rejected(CheckRow(rows[k], isValidUrl).error), AllTokens(rows[..k]))
  {
    var step := Processor(isValidUrl, imageOk, port);
    if headers.Some? {
      MissingHeadersExactly(headers.value);
    }
    StepsOkIff(rows, isValidUrl, imageOk, port);
    ProcessRowMeaning(rows[k], k, isValidUrl, imageOk, port);
    RunRowsStopsAtFirstBad(rows, k, step);
    var before := rows[..k];
    AcceptedRows(before, isValidUrl, imageOk, port);
  }

  /** Image failures never reject: whatever the fetches do, the response is
      the same kind, and a rejection is the same rejection. */
  lemma {:induction false} ImageFailuresNeverReject(file: Option<string>, headers: Option<seq<string>>, rows: seq<Row>,
                                                    isValidUrl: string -> bool, imageOk: (nat, nat) -> bool,
                                                    otherOk: (nat, nat) -> bool, requestId: string, port: string)
    ensures var a := Handle(file, headers, rows, isValidUrl, imageOk, requestId, port).0;
      var b := Handle(file, headers, rows, isValidUrl, otherOk, requestId, port).0;
      a.Done? == b.Done? && (a.Rejected? ==> a == b)
  {
    var s1, s2 := Processor(isValidUrl, imageOk, port), Processor(isValidUrl, otherOk, port);
    forall k | 0 <= k < |rows|
      ensures s1(rows[k], k).Ok? == s2(rows[k], k).Ok?
      ensures s1(rows[k], k).Err? ==> s1(rows[k], k).error == s2(rows[k], k).error
    {
      ProcessRowMeaning(rows[k], k, isValidUrl, imageOk, port);
      ProcessRowMeaning(rows[k], k, isValidUrl, otherOk, port);
    }
    SameVerdicts(rows, s1, s2);
  }

  /** Two loops whose steps accept the same rows and reject them for the
      same reasons end with the same verdict. */
  lemma {:induction false} SameVerdicts(rows: seq<Row>, s1: RowStep, s2: RowStep)
    requires forall k :: 0 <= k < |rows| ==> s1(rows[k], k).Ok? == s2(rows[k], k).Ok?
    requires forall k :: 0 <= k < |rows| ==> s1(rows[k], k).Err? ==> s1(rows[k], k).error == s2(rows[k], k).error
    ensures RunRows(rows, s1).result.Ok? == RunRows(rows, s2).result.Ok?
    ensures RunRows(rows, s1).result.Err? ==> RunRows(rows, s1).result.error == RunRows(rows, s2).result.error
  {
    if rows != [] {
      var n := |rows| - 1;
      var init := rows[..n];
      assert forall k :: 0 <= k < n ==> init[k] == rows[k];
      SameVerdicts(init, s1, s2);
    }
  }
}
