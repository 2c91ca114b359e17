# Document scanner core in Dafny

This project models the logic of a mobile document scanner. The app photographs
a page, uploads the image to an object store, has an OCR service analyse it, and
shows the recognised text. Two parts are modelled.

- `ResultScreen` (`result_screen.dfy`) models `extractText` of the result
  screen. It keeps the `LINE` blocks of an analysis response and sorts them
  into reading order. Two lines whose tops differ by less than 0.02 of the page
  height share a row and are ordered left to right; other lines are ordered top
  to bottom. A missing coordinate counts as 0. The texts are joined with
  newlines. The module also models the two checks that decide whether the
  form-fields and tables sections are shown.
- `AwsService` (`aws_service.dfy`) models the upload service.
  - The file name is the text after the last `/` of the image URI.
  - The extension is the text after the last `.` of the file name.
  - The object key is `uploads/<timestamp>-<file name>`.
  - The content type comes from the extension, ignoring letter case.
  - `processImage` reads the file, uploads it and asks for a tables-and-forms
    analysis of exactly the uploaded key. The first stage that fails ends the
    run with its error, and no later stage is called.
- `Strings` (`strings.dfy`) holds the JavaScript string operations the two
  modules rely on: `split` on one character, `pop`, `join`, ASCII `toLowerCase`
  and the decimal rendering of the timestamp. `Wrappers` holds `Option` and
  `Result`.

The file system, the object store and the OCR service are not called. The model
takes what each of them answers as a parameter: a `Result` value per call. Each
pipeline method also returns the trace of the calls it made, with their
requests, so its contract can state what is sent and in which order. The clock
reading is a `nat` parameter, and the bucket name from the configuration is a
string parameter. Textract coordinates are modelled as `real`.

Facts about the code that the model makes explicit:

- The code returns the sentinel "No text detected in the document." only when
  the result or its `Blocks` field is absent. A block list without `LINE`
  blocks gives the empty string (`NoLinesGivesEmptyText`).
- The row comparator is not transitive (`CompareNotTransitive`). The order
  that the JavaScript engine's sort produces for such a comparator is left
  unspecified. The model fixes one concrete sort, an insertion sort. It is
  proved to be a permutation of its input with every neighbouring pair in
  comparator order, and to be stable (`SortKeepsOrderedPairs`,
  `AllTiedKeepOrder`). Even so, the text can depend on the order in which the
  blocks arrive (`CycleOrderDependence`, `OutputDependsOnInputOrder`).
- The content type depends on the extension alone, never on the file contents.
- The service has no text summariser and no guard against two runs at once.

## Model

| member | source | states |
|---|---|---|
| `ResultScreen.ExtractText` | Screens/ResultScreen.js:15-18 | an absent result, or a result without `Blocks`, gives the sentinel text |
| `ResultScreen.NoLinesGivesEmptyText` | Screens/ResultScreen.js:15-41 | a present block list with no `LINE` block, the empty list included, gives "" and not the sentinel |
| `ResultScreen.Lines` | Screens/ResultScreen.js:21-23 | every kept block is a `LINE` block |
| `ResultScreen.LinesMultiset` | Screens/ResultScreen.js:21-23 | each `LINE` block of the input is kept as often as it occurs, other blocks never |
| `ResultScreen.LinesSingle` | Screens/ResultScreen.js:21-23 | a one-block list keeps its block exactly when it is a `LINE` block |
| `ResultScreen.LinesAppend` | Screens/ResultScreen.js:21-23 | the filter keeps input order: filtering a concatenation gives the concatenation of the filtered parts |
| `ResultScreen.CompareSign` | Screens/ResultScreen.js:23-38 | `Compare` is negative exactly when `a` is left of `b` on a shared row (`SameRow`: tops less than 0.02 apart), or above `b` on different rows; zero exactly when they tie on that coordinate |
| `ResultScreen.CompareAntisymmetric` | Screens/ResultScreen.js:23-38 | swapping the blocks negates the comparison, and sharing a row is symmetric |
| `ResultScreen.MissingCoordinateIsZero` | Screens/ResultScreen.js:24-32 | through `TopOf` and `LeftOf`, a block without a top or left compares exactly like one whose top or left is 0 |
| `ResultScreen.CompareNotTransitive` | Screens/ResultScreen.js:28-37 | blocks at tops 0, 0.015, 0.03 with lefts 0.2, 0.1, 0 form a cycle: a before c, c before b, b before a |
| `ResultScreen.Insert` | Screens/ResultScreen.js:23-38 | insertion adds exactly the one block and puts either it or the old first block at the front |
| `ResultScreen.InsertKeepsOrder` | Screens/ResultScreen.js:23-38 | inserting into a list whose neighbouring pairs are in comparator order keeps them so; only antisymmetry is used |
| `ResultScreen.SortLines` | Screens/ResultScreen.js:23-38 | the sorted list is a permutation of the input and every neighbouring pair is in comparator order |
| `ResultScreen.SortKeepsOrderedPairs` | Screens/ResultScreen.js:23-38 | the sort is stable: when a block does not follow a later block of the input (ties included), it still comes before it in the output |
| `ResultScreen.InsertKeepsPair` | Screens/ResultScreen.js:23-38 | inserting a block keeps the relative order of two blocks already in the list |
| `ResultScreen.AllTiedKeepOrder` | Screens/ResultScreen.js:23-38 | a list whose blocks all tie with each other comes out of the sort unchanged |
| `ResultScreen.NoBoxesKeepInputOrder` | Screens/ResultScreen.js:21-38 | when no `LINE` block has a bounding box, whatever the other blocks carry, the lines are read in input order (the filter's order, `LinesAppend`) |
| `ResultScreen.OrderedLinesArePermutation` | Screens/ResultScreen.js:21-38 | `OrderedLines`, filter then sort, gives a permutation of exactly the `LINE` blocks, each present in the input, with neighbours in reading order |
| `ResultScreen.RowsReadTopToBottom` | Screens/ResultScreen.js:36-37 | when no two distinct lines share a row, tops never decrease through the whole output |
| `ResultScreen.TopsAscend` | Screens/ResultScreen.js:36-37 | tops that never decrease between neighbours never decrease between any two positions |
| `ResultScreen.OneSegmentPerLine` | Screens/ResultScreen.js:41 | for the `map` step `Texts` (each line's `TextOf`, "" for a missing text) and the `Join`: when no line text holds a newline, splitting the output at newlines gives back the texts of the ordered lines, one per `LINE` block |
| `ResultScreen.SameRowPairReadsLeftToRight` | Screens/ResultScreen.js:28-33 | two lines on one row read left to right whichever order they arrive in |
| `ResultScreen.SortCycle` | Screens/ResultScreen.js:23-38 | on a comparator cycle x<z, z<y, y<x the sort yields [x, z, y] from [x, y, z], and [z, y, x] from [z, y, x] |
| `ResultScreen.CycleOrderDependence` | Screens/ResultScreen.js:15-41 | for any three lines forming a comparator cycle, whose first letters differ at the ends, the two input orders give different text |
| `ResultScreen.OutputDependsOnInputOrder` | Screens/ResultScreen.js:15-41 | the lines "a" (0, 0.2), "b" (0.015, 0.1) and "c" (0.03, 0) give different text in the orders a, b, c and c, b, a |
| `ResultScreen.AnyOfType` | Screens/ResultScreen.js:62-64 | true exactly when some block has the given type |
| `ResultScreen.ShowsFormFields` | Screens/ResultScreen.js:62-64 | the form-fields section shows exactly when a result with blocks holds a `KEY_VALUE_SET` block |
| `ResultScreen.ShowsTables` | Screens/ResultScreen.js:78-80 | the tables section shows exactly when a result with blocks holds a `TABLE` block |
| `AwsService.FileNameAfterLastSlash` | services/AwsService.js:82 | `FileName`, the file name, holds no `/`, ends the URI, and is preceded by a `/` unless it is the whole URI |
| `AwsService.ExtensionAfterLastDot` | services/AwsService.js:83 | `FileExtension`, the extension, holds no `.`, ends the file name, and is preceded by a `.` unless it is the whole name |
| `AwsService.KeyShape` | services/AwsService.js:85 | the key `ObjectKey` starts with `uploads/` and ends with the file name |
| `AwsService.KeyRoundTrip` | services/AwsService.js:84-85 | parsing an `ObjectKey` with `ParseKey` gives back the timestamp and the file name it was built from |
| `AwsService.KeysDistinct` | services/AwsService.js:84-85 | different timestamps or different file names give different keys |
| `AwsService.MediaType` | services/AwsService.js:88-98 | the content type is one of image/jpeg, image/png, application/pdf, application/octet-stream |
| `AwsService.MediaTypeCases` | services/AwsService.js:88-98 | JPEG exactly for jpg or jpeg, PNG exactly for png, PDF exactly for pdf, all after lower-casing; octet-stream exactly for every other extension |
| `AwsService.MediaTypeIgnoresCase` | services/AwsService.js:90-96 | extensions equal up to letter case get the same content type |
| `AwsService.JpegSpellings` | services/AwsService.js:90-93 | "JPG", "Jpeg" and "jpeg" are all image/jpeg |
| `AwsService.ContentTypeFor` | services/AwsService.js:88-98 | the if/else-if chain computes the table's content type for every extension |
| `AwsService.FileToBase64` | services/AwsService.js:49-65 | succeeds exactly when the file exists and the read succeeds; a missing file fails with FileDoesNotExist and is never read; other errors pass through unchanged |
| `AwsService.UploadToS3` | services/AwsService.js:73-119 | puts exactly one object, with the derived key, the contents and the content type; returns that key, or the store's error |
| `AwsService.AnalyzeWithTextract` | services/AwsService.js:126-155 | sends one analysis request for the given key with feature types TABLES and FORMS, and returns the service's answer or error |
| `AwsService.ProcessImage` | services/AwsService.js:26-42 | read, upload and analyze run in order; the first failure ends the run with its error unchanged and no later call is made; analysis is asked for exactly the key that was uploaded |
| `Strings.Split` | services/AwsService.js:82-83 | splitting gives at least one piece, no piece holds the separator, and text without the separator is one piece |
| `Strings.JoinSplit` | services/AwsService.js:82-83 | `Join`: joining the pieces of a split with the separator gives back the text |
| `Strings.SplitJoin` | Screens/ResultScreen.js:41 | `Join`, as used by the screen: splitting a join of separator-free pieces gives back the pieces |
| `Strings.LastPiece` | services/AwsService.js:82-83 | the last piece of a split holds no separator, ends the text, and is preceded by the separator unless it is the whole text |
| `Strings.ToLower` | services/AwsService.js:90-96 | lower-casing keeps the length, maps each character pointwise and leaves no upper-case letter |
| `Strings.ToLowerIdempotent` | services/AwsService.js:90-96 | lower-casing twice is lower-casing once |
| `Strings.NatToDecimal` | services/AwsService.js:84-85 | the rendering is a non-empty string of digits with a leading zero only for 0 |
| `Strings.DecimalRoundTrip` | services/AwsService.js:84-85 | reading the rendering of a number back gives the number |
| `Strings.DecimalInjective` | services/AwsService.js:84-85 | different numbers render differently |

## Left out

- Calls to the device file system, the object store and the OCR service are only modelled through the answers they give. Credentials, regions, client construction and the network are not modelled.
- The bucket name of the inline `awsConfig` object (services/AwsService.js:12-19) is a parameter, because it is a placeholder to be replaced at deployment.
- `Buffer.from(base64Data, "base64")` is not modelled. The put request carries the Base64 text that was read, not the decoded bytes.
- `new Date().getTime()` is a `nat` parameter. The exponent form that JavaScript uses to render very large numbers is not modelled.
- `detectTextInDocument`, the simpler text-only call, is never invoked by the pipeline. It is not modelled.
- `console.log` and `console.error` output is not modelled.
- AwsService.ProcessImage: the stage tag in `Failed` exists only in the model. The source rethrows the bare error, and the model's error value is that same error.
- ResultScreen.SortLines: the engine's sort is replaced by one concrete insertion sort. With a non-transitive comparator, the engine may order lines differently, so the exact order is a property of the model's sort. The permutation, neighbour-order and stability properties are proved of this insertion sort only. The engine's sort keeps the permutation, but it may leave neighbours out of comparator order.
- ResultScreen.CompareSign: Textract coordinates are double-precision floats in the source. The model uses exact reals, so rounding near the 0.02 row tolerance is not modelled.
- Strings.ToLower: covers ASCII letters only. Unicode case mapping is not modelled.
- Textract block types other than `LINE`, `KEY_VALUE_SET` and `TABLE` are collapsed into one `Other` value, because the screen never distinguishes them.
- A missing `Geometry` or `BoundingBox` is collapsed into a missing coordinate. The screen treats both the same way.
- The screen's layout, styles and the reset button are user-interface code without logic to verify. They are not modelled, and neither are the camera, picker and preview screens or `App.js`.
