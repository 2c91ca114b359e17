/**
 * The upload service: how the object key and content type are derived from
 * the image URI and the clock, and the fail-fast sequence read file, upload,
 * analyze. What the device file system, the object store and the OCR service
 * answer is given as a value per call; each call made is recorded.
 */
module AwsService {
  import opened Wrappers
  import opened Strings
  import ResultScreen

  const UploadPrefix := "uploads/"
  const OctetStream := "application/octet-stream"
  const Jpeg := "image/jpeg"
  const Png := "image/png"
  const Pdf := "application/pdf"

  /** The analysis features requested with every document. */
  const FeatureTypes: seq<string> := ["TABLES", "FORMS"]

  // ---- key and content type ----

  /** `uri.split("/").pop()` */
  function FileName(uri: string): string {
    Last(Split(uri, '/'))
  }

  /** The file name is the text after the last `/` of the URI, or the whole URI. */
  lemma FileNameAfterLastSlash(uri: string)
    ensures '/' !in FileName(uri)
    ensures IsSuffix(FileName(uri), uri)
    ensures |FileName(uri)| < |uri| ==> uri[|uri| - |FileName(uri)| - 1] == '/'
  {
    LastPiece(uri, '/');
  }

  /** `fileName.split(".").pop()` */
  function FileExtension(fileName: string): string {
    Last(Split(fileName, '.'))
  }

  /** The extension is the text after the last `.` of the file name, or the whole name. */
  lemma ExtensionAfterLastDot(fileName: string)
    ensures '.' !in FileExtension(fileName)
    ensures IsSuffix(FileExtension(fileName), fileName)
    ensures |FileExtension(fileName)| < |fileName| ==> fileName[|fileName| - |FileExtension(fileName)| - 1] == '.'
  {
    LastPiece(fileName, '.');
  }

  /** `uploads/${timestamp}-${fileName}` */
  function ObjectKey(timestamp: nat, fileName: string): string {
    UploadPrefix + NatToDecimal(timestamp) + "-" + fileName
  }

  /** A key starts with the upload prefix and ends with the file name. */
  lemma KeyShape(timestamp: nat, fileName: string)
    ensures IsPrefix(UploadPrefix, ObjectKey(timestamp, fileName))
    ensures IsSuffix(fileName, ObjectKey(timestamp, fileName))
  {
  }

  /**
   * Reads a key back into its timestamp and file name: the digits between
   * the prefix and the first `-`, and the rest.
   */
  function ParseKey(key: string): Option<(nat, string)> {
    if !IsPrefix(UploadPrefix, key) then None
    else
      var rest := key[|UploadPrefix|..];
      match IndexOf(rest, '-')
      case None => None
      case Some(i) =>
        if i == 0 || !AllDigits(rest[..i]) then None
        else Some((DecimalValue(rest[..i]), rest[i + 1..]))
  }

  /** The key determines the timestamp and the file name it was made from. */
  lemma KeyRoundTrip(timestamp: nat, fileName: string)
    ensures ParseKey(ObjectKey(timestamp, fileName)) == Some((timestamp, fileName))
  {
    var digits := NatToDecimal(timestamp);
    var key := ObjectKey(timestamp, fileName);
    var rest := key[|UploadPrefix|..];
    assert rest == digits + "-" + fileName;
    assert '-' !in digits by {
      forall i | 0 <= i < |digits| ensures digits[i] != '-' {
        assert IsDigit(digits[i]);
      }
    }
    IndexOfAfterPiece(digits, '-', fileName);
    assert rest[..|digits|] == digits;
    assert rest[|digits| + 1..] == fileName;
    DecimalRoundTrip(timestamp);
  }

  /** The first occurrence of `c` after a piece free of it is right after that piece. */
  lemma {:induction false} IndexOfAfterPiece(p: string, c: char, t: string)
    requires c !in p
    ensures IndexOf(p + [c] + t, c) == Some(|p|)
    decreases |p|
  {
    if |p| > 0 {
      IndexOfAfterPiece(p[1..], c, t);
      assert (p + [c] + t)[1..] == p[1..] + [c] + t;
    }
  }

  /** Distinct timestamps or file names give distinct keys. */
  lemma KeysDistinct(t1: nat, f1: string, t2: nat, f2: string)
    requires t1 != t2 || f1 != f2
    ensures ObjectKey(t1, f1) != ObjectKey(t2, f2)
  {
    KeyRoundTrip(t1, f1);
    KeyRoundTrip(t2, f2);
  }

  /** The content-type table, keyed by lower-case extension. */
  const MediaTypes: map<string, string> := map["jpg" := Jpeg, "jpeg" := Jpeg, "png" := Png, "pdf" := Pdf]

  /** The content type for an extension according to the table. */
  function MediaType(fileExtension: string): (r: string)
    ensures r == Jpeg || r == Png || r == Pdf || r == OctetStream
  {
    var key := ToLower(fileExtension);
    if key in MediaTypes then MediaTypes[key] else OctetStream
  }

  /** Each content type and the lower-case extensions that select it. */
  lemma MediaTypeCases(fileExtension: string)
    ensures MediaType(fileExtension) == Jpeg <==> ToLower(fileExtension) in {"jpg", "jpeg"}
    ensures MediaType(fileExtension) == Png <==> ToLower(fileExtension) == "png"
    ensures MediaType(fileExtension) == Pdf <==> ToLower(fileExtension) == "pdf"
    ensures MediaType(fileExtension) == OctetStream <==> ToLower(fileExtension) !in {"jpg", "jpeg", "png", "pdf"}
  {
  }

  /** The content type depends on the extension only up to letter case. */
  lemma MediaTypeIgnoresCase(e1: string, e2: string)
    requires ToLower(e1) == ToLower(e2)
    ensures MediaType(e1) == MediaType(e2)
    ensures MediaType(ToLower(e1)) == MediaType(e1)
  {
    ToLowerIdempotent(e1);
  }

  /** "JPG", "Jpeg" and "jpeg" are all JPEG images. */
  lemma JpegSpellings()
    ensures MediaType("JPG") == Jpeg && MediaType("Jpeg") == Jpeg && MediaType("jpeg") == Jpeg
  {
    assert ToLower("JPG") == "jpg" by {
      assert ToLower("JPG")[0] == 'j' && ToLower("JPG")[1] == 'p' && ToLower("JPG")[2] == 'g';
    }
    assert ToLower("Jpeg") == "jpeg" by {
      assert ToLower("Jpeg")[0] == 'j' && ToLower("Jpeg")[1] == 'p';
      assert ToLower("Jpeg")[2] == 'e' && ToLower("Jpeg")[3] == 'g';
    }
    assert ToLower("jpeg") == "jpeg" by {
      assert ToLower("jpeg")[0] == 'j' && ToLower("jpeg")[1] == 'p';
      assert ToLower("jpeg")[2] == 'e' && ToLower("jpeg")[3] == 'g';
    }
  }

  /** The `let contentType` chain of `uploadToS3`. */
  method ContentTypeFor(fileExtension: string) returns (contentType: string)
    ensures contentType == MediaType(fileExtension)
  {
    contentType := OctetStream;
    if ToLower(fileExtension) == "jpg" || ToLower(fileExtension) == "jpeg" {
      contentType := Jpeg;
    } else if ToLower(fileExtension) == "png" {
      contentType := Png;
    } else if ToLower(fileExtension) == "pdf" {
      contentType := Pdf;
    }
  }

  // ---- the pipeline ----

  /** An error thrown by a stage; only the missing-file error is raised by the service itself. */
  datatype Error = FileDoesNotExist | Thrown(message: string)

  datatype PutObjectRequest = PutObjectRequest(bucket: string, key: string, body: string, contentType: string)

  datatype AnalyzeRequest = AnalyzeRequest(bucket: string, name: string, featureTypes: seq<string>)

  /** One call to a collaborator. */
  datatype Call =
    | GetInfo(uri: string)
    | ReadAsString(uri: string)
    | PutObject(put: PutObjectRequest)
    | AnalyzeDocument(analyze: AnalyzeRequest)

  datatype Stage = ReadFile | Upload | Analyze

  /** How `processImage` ends: the analysis response, or the error of the stage that threw it. */
  datatype Outcome = Done(response: ResultScreen.AnalysisResult) | Failed(stage: Stage, error: Error)

  /** The object `uploadToS3` puts for the file at `uri`, read as `body`, at time `timestamp`. */
  function UploadRequest(bucket: string, uri: string, timestamp: nat, body: string): PutObjectRequest {
    var fileName := FileName(uri);
    PutObjectRequest(bucket, ObjectKey(timestamp, fileName), body, MediaType(FileExtension(fileName)))
  }

  /** The read stage succeeds: the file exists and reading it succeeds. */
  predicate FileRead(info: Result<bool, Error>, contents: Result<string, Error>) {
    info == Success(true) && contents.Success?
  }

  /**
   * `fileToBase64`, given what the file system answers to the info request
   * (`info`: whether the file exists) and to the read (`contents`): fails
   * with FileDoesNotExist when the file is missing, without reading it;
   * otherwise the outcome of the read.
   */
  method FileToBase64(uri: string, info: Result<bool, Error>, contents: Result<string, Error>)
    returns (r: Result<string, Error>, calls: seq<Call>)
    ensures r.Success? <==> FileRead(info, contents)
    ensures info.Failure? ==> r == Failure(info.error) && calls == [GetInfo(uri)]
    ensures info == Success(false) ==> r == Failure(FileDoesNotExist) && calls == [GetInfo(uri)]
    ensures info == Success(true) ==> r == contents && calls == [GetInfo(uri), ReadAsString(uri)]
  {
    calls := [GetInfo(uri)];
    if info.Failure? {
      return Failure(info.error), calls;
    }
    if !info.value {
      return Failure(FileDoesNotExist), calls;
    }
    calls := calls + [ReadAsString(uri)];
    r := contents;
  }

  /**
   * `uploadToS3`, given what the store answers (`sent`): puts the object and
   * returns its key, or the store's error.
   */
  method UploadToS3(base64Data: string, uri: string, bucket: string, timestamp: nat, sent: Result<(), Error>)
    returns (r: Result<string, Error>, calls: seq<Call>)
    ensures calls == [PutObject(UploadRequest(bucket, uri, timestamp, base64Data))]
    ensures r == if sent.Success? then Success(ObjectKey(timestamp, FileName(uri))) else Failure(sent.error)
  {
    var fileName := FileName(uri);
    var fileExtension := FileExtension(fileName);
    var key := ObjectKey(timestamp, fileName);
    var contentType := ContentTypeFor(fileExtension);
    var command := PutObjectRequest(bucket, key, base64Data, contentType);
    calls := [PutObject(command)];
    if sent.Failure? {
      return Failure(sent.error), calls;
    }
    r := Success(key);
  }

  /**
   * `analyzeWithTextract`, given what the OCR service answers (`response`):
   * asks for tables and forms of the object under `key`.
   */
  method AnalyzeWithTextract(key: string, bucket: string, response: Result<ResultScreen.AnalysisResult, Error>)
    returns (r: Result<ResultScreen.AnalysisResult, Error>, calls: seq<Call>)
    ensures calls == [AnalyzeDocument(AnalyzeRequest(bucket, key, FeatureTypes))]
    ensures r == response
  {
    var params := AnalyzeRequest(bucket, key, FeatureTypes);
    calls := [AnalyzeDocument(params)];
    r := response;
  }

  /**
   * `processImage`: read, upload, analyze, in that order, given what each
   * collaborator answers. The first stage to fail ends the run with its error
   * unchanged, and no later stage is called.
   */
  method ProcessImage(
    imageUri: string, bucket: string, timestamp: nat,
    info: Result<bool, Error>, contents: Result<string, Error>,
    sent: Result<(), Error>, response: Result<ResultScreen.AnalysisResult, Error>)
    returns (outcome: Outcome, calls: seq<Call>)
    // a missing file fails the read stage before anything is read, uploaded or analyzed
    ensures info == Success(false) ==>
      outcome == Failed(ReadFile, FileDoesNotExist) && calls == [GetInfo(imageUri)]
    // a failing info request or read fails the read stage with its error; nothing is uploaded
    ensures info.Failure? ==> outcome == Failed(ReadFile, info.error) && calls == [GetInfo(imageUri)]
    ensures info == Success(true) && contents.Failure? ==>
      outcome == Failed(ReadFile, contents.error) && calls == [GetInfo(imageUri), ReadAsString(imageUri)]
    // once the file is read, the upload request is fixed by the URI, the clock and the
    // contents, and analysis is asked for exactly the key that was uploaded (UploadRequest's key)
    ensures FileRead(info, contents) ==>
      var put := UploadRequest(bucket, imageUri, timestamp, contents.value);
      var analyze := AnalyzeRequest(bucket, ObjectKey(timestamp, FileName(imageUri)), FeatureTypes);
      (sent.Failure? ==>
        outcome == Failed(Upload, sent.error) &&
        calls == [GetInfo(imageUri), ReadAsString(imageUri), PutObject(put)]) &&
      (sent.Success? ==>
        calls == [GetInfo(imageUri), ReadAsString(imageUri), PutObject(put), AnalyzeDocument(analyze)] &&
        outcome == if response.Success? then Done(response.value) else Failed(Analyze, response.error))
  {
    var data, c1 := FileToBase64(imageUri, info, contents);
    calls := c1;
    if data.Failure? {
      return Failed(ReadFile, data.error), calls;
    }
    var key, c2 := UploadToS3(data.value, imageUri, bucket, timestamp, sent);
    calls := calls + c2;
    if key.Failure? {
      return Failed(Upload, key.error), calls;
    }
    var result, c3 := AnalyzeWithTextract(key.value, bucket, response);
    calls := calls + c3;
    if result.Failure? {
      return Failed(Analyze, result.error), calls;
    }
    outcome := Done(result.value);
  }
}
