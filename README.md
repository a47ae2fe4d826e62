# The `/upload` handler of the image processing API, in Dafny

The service takes a CSV manifest of products. Each row has a serial number, a product name and a comma-separated list of image URLs. For each product it fetches every image and re-encodes it as a JPEG. It then saves one `ProcessingRequest` that lists every product with its input URLs and the public URLs of the images it compressed. This project models the decision logic of the `/upload` handler in `server.js` and proves what that logic promises:

- the file is answered with "No file uploaded" when there is none, and with "Invalid file type…" when it is not `text/csv`;
- a header line lacking `S. No.`, `Product Name` or `Input Image Urls` is rejected, with the missing names in that fixed order; no row is then looked at. When the parser emits no header line the check does not run at all;
- the loop stops at the first row with an absent or empty cell, or with an invalid image URL token;
- the URL cell is split on every comma and each piece is trimmed, so a trailing comma gives an empty token that the URL check must judge;
- one bad token rejects the whole row, and the rejection lists every bad token, in order;
- an image whose fetch or compression fails is dropped from the product's outputs and never rejects the row;
- on success one record is saved: the request id drawn before parsing, status `Implemented`, one product per row in manifest order.

Modules, one file each:

- `wrappers.dfy` (`Wrappers`): `Option` and `Result`.
- `sequences.dfy` (`Sequences`): `Array.prototype.filter` as `Filter`, and the subsequence relation.
- `text.dfy` (`Text`): the JavaScript built-ins the handler relies on. These are `trim` (`Trim`, with `TrimStart`, `TrimEnd`), `split` on one character (`Split`), `join` (`Join`), `parseInt(s, 10)` (`ParseInt`, `ParseSigned`, `ParseDigits`) and the decimal rendering of `${n}` (`Decimal`). White space is the ECMAScript WhiteSpace and LineTerminator set. `parseInt` reads an optional sign and the longest run of digits; NaN is `None`, and the value is kept as an exact integer where JavaScript rounds it to a double.
- `manifest.dfy` (`Manifest`): the MIME check (`CheckFile`), the header check (`MissingHeaders`), the row checks (`CheckRow`, `ImageUrls`, `InvalidUrls`), the rejection reasons and their 400 messages (`Message`).
- `records.dfy` (`Records`): the `Product` and `ProcessingRequest` shapes of `models/ProcessingRequest.js`.
- `images.dfy` (`Images`): the stored name `${productName}_${index + 1}.jpg` and its public URL. It also holds the list `Promise.all` resolves to (`CompressAll`), `filter(Boolean)` (`FilterBoolean`) and the product a valid row becomes (`MakeProduct`).
- `upload.dfy` (`Upload`):
  - `Handle` is the whole handler as one definition, built on the row loop `RunRows`;
  - `Upload` is the handler as the source runs it: the `isValidFormat` flag and the rows gathered by the `data` events into `csvData`; `OnEnd` is the `end` callback's `for…of` loop with its early returns;
  - `Upload` is proved equal to `Handle`, and the lemmas state the handler's properties about `Handle`.

Several things become parameters:

- the uploaded file is its MIME type (`None` when there is no file);
- the CSV parser's output is its header line (`None` when it emits no `headers` event, as for a file without any line) plus a sequence of rows, each a map from column name to cell;
- `isValidURL` is a predicate `isValidUrl`;
- the outcome of fetching and compressing token `i` of row `r` is `imageOk(r, i)`;
- `uuidv4()` is `requestId`, and the PORT environment variable is `port`.

The second result of `Handle` and `Upload` is the list of image URLs the handler fetches, in order. It shows that nothing is fetched before the file, the headers and the row have been checked.

As in the source, stored images are named by product name and index only. Two products with the same name therefore share public URLs (`Images.SharedNameSharesStorage`).

The code saves the literal status `Implemented` (server.js:144).

## Model

| member | source | states |
|---|---|---|
| Upload.Handle | server.js:49-153 | The whole handler as one definition: the MIME check, the header check when a header line is emitted, then the row loop. `Upload.Upload` is proved equal to it; `DoneIff`, `DoneRecord`, `FirstBadRowRejects`, `RejectedBeforeReading`, `MissingHeadersRejectBeforeRows` and `ImageFailuresNeverReject` state its properties. |
| Upload.Finish | server.js:140-151 | The response after the loop: the loop's rejection, or the request with id, status `Implemented` and the products. Its contract is carried by `DoneRecord` and `FirstBadRowRejects`. |
| Upload.RunRows | server.js:91-138 | The row loop, stopping at the first rejected row. Its contract is carried by `RunRowsOkIff`, `RunRowsAccepted`, `RunRowsStopsAtFirstBad` and `RejectionSticks`. |
| Upload.ProcessRow | server.js:92-137 | One pass of the loop: the row's checks, then its product. Its contract is carried by `AcceptedRows` and `FirstBadRowRejects`. |
| Manifest.CheckRow | server.js:94-109 | The checks of one row. Its contract is carried by `CheckRowMeaning` and `OneBadTokenRejectsRow`. |
| Manifest.ImageUrls | server.js:101 | `split(',').map(url => url.trim())`. Its contract is carried by `ImageUrlsPieces`, `ImageUrlsOfJoin` and `TrailingCommaKeepsEmptyToken`. |
| Manifest.Message | server.js:54-106 | The `message` of each 400 response. Its contract is carried by `MessageTellsReason`. |
| Manifest.AbsentCounts | server.js:74 | Each absent name is kept as often as it is listed, and a present name never. |
| Images.StoredName | server.js:117 | `${productName}_${index + 1}.jpg`. Its contract is carried by `StoredNameInjective` and `NamesCountFromOne`. |
| Images.PublicUrl | server.js:124 | The public URL of a stored image. Its contract is carried by `PublicUrlInjective` and `SharedNameSharesStorage`. |
| Images.CompressAll | server.js:112-130 | What `Promise.all` resolves to: the public URL where the image succeeded, `null` where it failed. Its contract is carried by `OutputsAreSuccesses`. |
| Images.FilterBoolean | server.js:136 | `filter(Boolean)`. Its contract is carried by `OutputsAreSuccesses`. |
| Images.MakeProduct | server.js:132-137 | The product a valid row becomes. Its contract is carried by `ProductOutputs` and `SecondOfThreeFails`. |
| Text.ParseInt | server.js:133 | `parseInt(s, 10)`. Its contract is carried by `ParseIntDecimal`, `ParseIntSignedDecimal` and `ParseIntNoDigits`. |
| Text.Join | server.js:78-106 | `join` with a separator. Its contract is carried by `JoinSplit` and `SplitJoin`. |
| Upload.Upload | server.js:49-153 | The handler, run step by step, returns exactly `Handle`'s response and fetch log. It goes through the MIME checks, the header flag set by the `headers` event, and the gathering of rows by the `data` events, then hands over to `OnEnd`. |
| Upload.OnEnd | server.js:86-153 | The `end` callback's loop over the gathered rows, with its two early returns, ends exactly as `Finish` of the row loop `RunRows`: the first rejection, or the request with every product. |
| Upload.DoneIff | server.js:53-146 | A request is saved if and only if all three hold: the file is `text/csv`, the header line, when the parser emits one, has all three expected headers, and every row passes its checks. |
| Upload.NoHeaderLineSavesEmptyRequest | server.js:72-87 | When the parser emits no header line and no row, the header check never runs and a request without products is saved, with nothing fetched. |
| Upload.DoneRecord | server.js:132-146 | The saved record carries the given request id and status `Implemented`. It holds one product per row, in manifest order, and every row's tokens were fetched. Each product has its row's parsed serial number, its name and its trimmed tokens. Its outputs are the public URLs of the successful images, in token order. |
| Upload.FirstBadRowRejects | server.js:91-109 | When row k is the first to fail its checks, the response is row k's rejection. Only the tokens of the rows before k were fetched, and nothing is saved. |
| Upload.RejectedBeforeReading | server.js:53-60 | Without a `text/csv` file the response is "no file" or "wrong type", decided by the file alone, and nothing is fetched. |
| Upload.MissingHeadersRejectBeforeRows | server.js:72-87 | When the header line lacks an expected header, the response is the missing-headers rejection whatever the rows are, and nothing is fetched. |
| Upload.ImageFailuresNeverReject | server.js:112-130 | Changing which fetches succeed never changes whether a request is saved, nor which rejection is returned. |
| Upload.RunRowsOkIff | server.js:91-138 | The row loop gets through all rows if and only if every step succeeds. |
| Upload.RunRowsAccepted | server.js:91-138 | When the loop gets through, it holds one product per row, in order, each being that row's step result. The fetch log is the products' input lists concatenated. |
| Upload.RunRowsStopsAtFirstBad | server.js:91-109 | The loop ends with the first failing step's rejection. The fetch log is the one of the rows before it. |
| Upload.StepRejected | server.js:104-108 | After an accepted prefix, a rejected step fixes the final outcome. |
| Upload.RejectionSticks | server.js:98 | Once a row is rejected, later rows change nothing. |
| Upload.RowRejectedStep | server.js:94-108 | A row failing its checks ends the loop with that row's rejection. |
| Upload.AcceptedRows | server.js:91-137 | When every row passes its checks, the loop gets through. Each row then has its three cells filled and becomes `MakeProduct` of its cells, and the fetch log is all rows' tokens. |
| Upload.InputsAreTokens | server.js:112-114 | The URLs fetched for a list of accepted rows are those rows' tokens in order. |
| Upload.SameVerdicts | server.js:91-109 | Two loops whose steps accept the same rows, and reject the others for the same reasons, end with the same verdict. |
| Manifest.CheckFile | server.js:53-60 | The file passes if and only if it is present with MIME type `text/csv`. Otherwise the rejection is "no file" when it is absent and "wrong type" when it is present. |
| Manifest.MessageTellsReason | server.js:54-106 | Equal 400 messages come from rejections of the same kind. |
| Manifest.MissingHeaders | server.js:73-74 | A name is reported missing if and only if it is an expected header absent from the header line. |
| Manifest.Absent | server.js:74 | `filter(h => !present.includes(h))` keeps exactly the names not present, in their order. |
| Manifest.MissingHeadersExactly | server.js:73-76 | The missing list is spelled out: each of `S. No.`, `Product Name`, `Input Image Urls` at most once, in that order. It is empty if and only if all three are present. |
| Manifest.ImageUrlsPieces | server.js:101 | The tokens are the trimmed comma-separated pieces, in order. There is one more of them than there are commas. None holds a comma, and none starts or ends with white space. |
| Manifest.ImageUrlsOfJoin | server.js:101 | Reading a comma-joined list of trimmed, comma-free tokens gives back exactly those tokens. |
| Manifest.TrailingCommaKeepsEmptyToken | server.js:101 | A trailing comma adds one final empty token rather than being dropped. |
| Manifest.InvalidUrls | server.js:102 | The invalid list holds exactly the tokens failing the predicate, with their multiplicities, as a subsequence of the tokens. It is empty if and only if every token is valid. |
| Manifest.CheckRowMeaning | server.js:94-109 | A row is rejected for empty fields if and only if a cell is absent or empty. Otherwise it is accepted with its tokens if and only if every token is valid, and is rejected with the invalid tokens if not. |
| Manifest.OneBadTokenRejectsRow | server.js:102-106 | A single failing token rejects the row. The rejection lists that token, and exactly the failing tokens. |
| Images.Successes | server.js:112-130 | The successful image indices are at most `count` in number, each below `count`, and each one succeeded. |
| Images.SuccessesExactly | server.js:112-130 | The successful indices are strictly increasing, and every successful index is listed. |
| Images.AllSucceededIff | server.js:112-136 | Every image is kept if and only if every image succeeded. |
| Images.OutputsAreSuccesses | server.js:112-136 | `filter(Boolean)` of the resolved list is the public URLs of the successful images, in token order. |
| Images.ProductOutputs | server.js:132-137 | A product carries its serial number, name and tokens. Its outputs are the successful images' URLs, in increasing index order, never more than its inputs. There are as many outputs as inputs if and only if no image failed. |
| Images.SecondOfThreeFails | server.js:126-136 | Of three images where the second fails, the outputs are the first and third images' URLs. |
| Images.StoredNameInjective | server.js:117 | Within one product, distinct tokens get distinct stored names. |
| Images.PublicUrlInjective | server.js:124 | Within one product, distinct tokens get distinct public URLs. |
| Images.NamesCountFromOne | server.js:117 | Stored names count from one: token 0 is `_1.jpg` and token 2 is `_3.jpg`. |
| Images.SharedNameSharesStorage | server.js:117-124 | Two products with the same name whose i-th images both succeed list the same public URL. |
| Images.OutputListed | server.js:124-136 | The URL of a listed successful index appears among the outputs. |
| Sequences.Filter | server.js:102 | `filter` keeps exactly the elements satisfying the test, with their multiplicities, as a subsequence. |
| Sequences.FilterAllOrNothing | server.js:102-104 | The filter keeps everything if and only if every element passes, and nothing if and only if none passes. |
| Text.TrimStart | server.js:101 | The result is a suffix of the input, everything dropped is white space, and the result does not start with white space. |
| Text.TrimEnd | server.js:101 | The result is a prefix of the input, everything dropped is white space, and the result does not end with white space. |
| Text.Trim | server.js:101 | The trimmed string neither starts nor ends with white space. |
| Text.TrimPadded | server.js:101 | Trimming a string with non-space ends, surrounded by any white space, gives exactly that string. |
| Text.TrimIdempotent | server.js:101 | Trimming twice is trimming once. |
| Text.TrimKeepsOut | server.js:101 | Trimming introduces no character: a comma-free piece stays comma-free. |
| Text.Split | server.js:101 | Splitting always yields at least one piece. |
| Text.SplitCount | server.js:101 | There is one more piece than there are separators. |
| Text.SplitPiecesFree | server.js:101 | No piece contains the separator. |
| Text.SplitAppend | server.js:101 | Splitting at a separator splits each side separately. |
| Text.SplitNoSeparator | server.js:101 | A string without the separator is one piece. |
| Text.JoinSplit | server.js:101 | Joining the pieces with the separator gives back the input. |
| Text.SplitJoin | server.js:101 | Splitting a join of separator-free pieces gives back the pieces. |
| Text.Decimal | server.js:117 | The rendering of `index + 1` is a non-empty string of digits with no leading zero. |
| Text.DecimalValue | server.js:117 | Reading the rendering back gives the number. |
| Text.DecimalInjective | server.js:117 | Distinct numbers render differently. |
| Text.DigitPrefix | server.js:133 | The digits `parseInt` reads are the longest prefix of decimal digits. |
| Text.ParseIntDecimal | server.js:133 | `parseInt` of a rendered number up to 2^53, after white space and before non-digit text, is that number. |
| Text.ParseIntSignedDecimal | server.js:133 | The same with a leading `-` (negated) or `+`. |
| Text.ParseIntNoDigits | server.js:133 | Text with no digit after the white space and the optional sign parses to NaN (`None`). |

## Left out

- HTTP routing, body parsing, multer staging and the static serving of `/compressed/:imageName` (server.js:14-15, 36, 162-169) are framework plumbing, not decision logic.
- Directory bootstrap and every file-system call (server.js:18-25, 58, 70, 79, 97, 107, 152) are left out. The model does not show the temporary file being deleted on each path.
- The MongoDB connection and `save` (server.js:28-33, 148) are left out. A `Done` outcome stands for the saved record, and a failing save is not modelled.
- A serial number that `parseInt` turns into NaN is kept as `None`. The model does not capture Mongoose's rejection of that value when saving.
- The network fetch and the JPEG re-encode at quality 50 (server.js:114-121) are foreign I/O. They are the parameter `imageOk`.
- `new URL` (the WHATWG URL Standard basic URL parser, section 4.4) is the uninterpreted predicate `isValidUrl`.
- CSV tokenising by `csv-parser` is left out. Its output is the optional header line plus the row maps; which inputs make it emit no header line is not modelled.
- `uuidv4` randomness is the parameter `requestId`.
- Promise concurrency, the event-callback structure and the outer `catch` that answers 500 (server.js:155-158) are left out. The handler is a sequential loop with one response. `Promise.all` keeps index order, and the fetch log lists one row's tokens in index order.
- The source answers at most once: after a rejection the `data` and `end` callbacks return at once (server.js:83, 87, 98, 108). The model leaves out the case where no response is sent at all. `await newRequest.save()` (server.js:148) runs inside the `end` callback, outside the `try` of server.js:52-158, so a rejected save, for instance of a NaN serial number from a cell such as `abc`, answers neither 200 nor 500. For such input the model returns `Done`.
- Console logging is left out.
- Text.ParseInt: it keeps the exact integer, where JavaScript rounds a value above 2^53 to the nearest double and gives Infinity for a run of more than about 309 digits; IEEE 754 doubles are not modelled.
- Text.ParseIntDecimal: it holds only up to 2^53 (`ExactDoubleLimit`), the range where the exact integer is the double JavaScript returns.
- Text.ParseIntSignedDecimal: the same bound of 2^53, for a signed value.
- Text.Split: it models `split` on a single character only, which is the one use in the handler.
- Manifest.MessageTellsReason: it recovers only the kind of rejection from the message, not the names or URLs it lists. A `Join` with ", " of names that themselves contain ", " is ambiguous.
