/**
 * The client's handlers: `handleFileUpload` dispatches an uploaded file
 * to the CSV, JSON, text or OCR path by its lower-cased name and MIME
 * type; `handleEncryptAndSubmit` checks its guards, scales the demo
 * metric and builds the submission; `handleDecryptAggregate` turns the
 * decrypted answer back into a displayed number. The file's text, the
 * CSV parser's output, `JSON.parse` and the OCR request are inputs.
 */
module Platform {
  import opened Wrappers
  import opened JsText
  import opened JsValues
  import opened NumberParse
  import opened Records
  import opened Tabular
  import opened PlainText
  import opened Metric
  import Codec

  /** The uploaded file's `name` and `type`. */
  datatype FileInfo = FileInfo(name: string, mime: string)

  /** The parsed OCR answer `j` as the client reads it: `j.rows` and `j.text`. */
  datatype OcrJson = OcrJson(rows: Option<seq<Row>>, text: Option<string>)

  /** How an upload ends: nothing chosen, rows extracted, OCR without rows (data and an error both set), or an error. */
  datatype Outcome =
    | NoFile
    | Parsed(data: Extracted)
    | NoOcrRows(data: Extracted, message: string)
    | Failed(message: string)

  const NoOcrRowsMessage := "OCR succeeded but no tabular rows were detected. Server text preview below."

  /** `{ rows: rows.length, preview: rows.slice(0, 200) }` when there are rows, else the branch's error. */
  function FromRows(rows: seq<Row>, emptyMessage: string): (o: Outcome)
    ensures rows == [] ==> o == Failed(emptyMessage)
    ensures rows != [] ==> o == Parsed(Extracted(|rows|, Preview(rows), None))
  {
    if rows == [] then Failed(emptyMessage) else Parsed(Extracted(|rows|, Preview(rows), None))
  }

  /** The image branch, from what `apiFetch("/api/ocr")` gave: a thrown message, no body, or the JSON body. */
  function OcrOutcome(reply: Result<Option<OcrJson>, string>): (o: Outcome)
    ensures reply.Failure? ==> o == Failed(reply.error)
    ensures o.Parsed? ==>
      && reply.Success? && reply.value.Some? && reply.value.value.rows.Some?
      && o.data.rows == |reply.value.value.rows.value| > 0 && o.data.preview == Preview(reply.value.value.rows.value)
    ensures o.NoOcrRows? ==> o.data.rows == 0 && o.data.preview == [] && o.message == NoOcrRowsMessage
    ensures !o.NoFile?
  {
    match reply
    case Failure(message) => Failed(message)
    case Success(None) => Failed("No response from OCR endpoint")
    case Success(Some(j)) =>
      if j.rows.Some? && |j.rows.value| > 0 then Parsed(Extracted(|j.rows.value|, Preview(j.rows.value), None))
      else NoOcrRows(Extracted(0, [], j.text), NoOcrRowsMessage)
  }

  /** Which branch a file takes, in the order the handler tests them. */
  datatype Branch = CsvBranch | JsonBranch | TxtBranch | ImageBranch | FallbackBranch

  /** `name.endsWith(".csv")`, `".json"`, `".txt"` on the lower-cased name, then `file.type.startsWith("image/")`. */
  function BranchOf(file: FileInfo): (b: Branch)
    ensures b == CsvBranch <==> EndsWith(ToLower(file.name), ".csv")
    ensures b == ImageBranch <==>
      && !EndsWith(ToLower(file.name), ".csv") && !EndsWith(ToLower(file.name), ".json") && !EndsWith(ToLower(file.name), ".txt")
      && StartsWith(file.mime, "image/")
  {
    var name := ToLower(file.name);
    if EndsWith(name, ".csv") then CsvBranch
    else if EndsWith(name, ".json") then JsonBranch
    else if EndsWith(name, ".txt") then TxtBranch
    else if StartsWith(file.mime, "image/") then ImageBranch
    else FallbackBranch
  }

  /**
   * The outcome of one branch, given the rows each parser would produce:
   * the CSV parser's rows or error, the JSON rows (none when `JSON.parse`
   * threw) and the plain-text rows.
   */
  function BranchOutcome(branch: Branch, csvRows: Result<seq<Row>, string>, jsonRows: Option<seq<Row>>,
                         textRows: seq<Row>, ocr: Result<Option<OcrJson>, string>): Outcome
  {
    match branch
    case CsvBranch => CsvOutcome(csvRows)
    case JsonBranch => JsonOutcome(jsonRows)
    case TxtBranch => FromRows(textRows, "No usable rows found in TXT")
    case ImageBranch => OcrOutcome(ocr)
    case FallbackBranch => FromRows(textRows, "Unsupported file format or no usable rows")
  }

  /** The `.csv` branch: the first parse error aborts, otherwise the rows are kept. */
  function CsvOutcome(csvRows: Result<seq<Row>, string>): Outcome {
    match csvRows
    case Failure(e) => Failed(e)
    case Success(rows) => FromRows(rows, "No usable rows found in CSV")
  }

  /** The `.json` branch: a text `JSON.parse` rejects is reported as invalid. */
  function JsonOutcome(jsonRows: Option<seq<Row>>): Outcome {
    match jsonRows
    case None => Failed("Invalid JSON")
    case Some(rows) => FromRows(rows, "No usable items in JSON")
  }

  /** The JSON rows, or none when `JSON.parse` threw. */
  function JsonUpload(json: Option<JsValue>): Option<seq<Row>> {
    match json
    case None => None
    case Some(v) => Some(JsonRows(v))
  }

  /** What `handleFileUpload` ends with. */
  function UploadOutcome(file: Option<FileInfo>, text: string, csv: CsvParse, json: Option<JsValue>,
                         ocr: Result<Option<OcrJson>, string>): (o: Outcome)
    ensures o.NoFile? <==> file.None?
    ensures o.NoOcrRows? ==> file.Some? && BranchOf(file.value) == ImageBranch
  {
    if file.None? then NoFile
    else BranchOutcome(BranchOf(file.value), CsvRows(csv), JsonUpload(json), PlainRows(text), ocr)
  }

  /**
   * `handleFileUpload`: `text` is `await file.text()`, `csv` what
   * `Papa.parse(text)` gives, `json` what `JSON.parse(text)` gives (none
   * when it throws), `ocr` what the OCR request gives.
   */
  method HandleFileUpload(file: Option<FileInfo>, text: string, csv: CsvParse, json: Option<JsValue>,
                          ocr: Result<Option<OcrJson>, string>) returns (outcome: Outcome)
    ensures outcome == UploadOutcome(file, text, csv, json, ocr)
  {
    if file.None? {
      return NoFile;
    }
    var branch := BranchOf(file.value);
    match branch
    case CsvBranch => outcome := UploadCsv(csv);
    case JsonBranch => outcome := UploadJson(json);
    case TxtBranch => outcome := UploadText(text, "No usable rows found in TXT");
    case ImageBranch => outcome := OcrOutcome(ocr);
    case FallbackBranch => outcome := UploadText(text, "Unsupported file format or no usable rows");
  }

  /** The `.csv` branch of `handleFileUpload`. */
  method UploadCsv(csv: CsvParse) returns (outcome: Outcome)
    ensures outcome == CsvOutcome(CsvRows(csv))
  {
    var rows := ParseCsvText(csv);
    if rows.Failure? {
      return Failed(rows.error);
    }
    outcome := FromRows(rows.value, "No usable rows found in CSV");
  }

  /** The `.json` branch of `handleFileUpload`. */
  method UploadJson(json: Option<JsValue>) returns (outcome: Outcome)
    ensures outcome == JsonOutcome(JsonUpload(json))
  {
    if json.None? {
      return Failed("Invalid JSON");
    }
    var rows := ParseJsonRows(json.value);
    outcome := FromRows(rows, "No usable items in JSON");
  }

  /** The `.txt` branch and the fallback of `handleFileUpload`. */
  method UploadText(text: string, emptyMessage: string) returns (outcome: Outcome)
    ensures outcome == FromRows(PlainRows(text), emptyMessage)
  {
    var rows := ParsePlainText(text);
    outcome := FromRows(rows, emptyMessage);
  }

  /** `extractedData` after the handler (it is cleared first). */
  function ExtractedAfter(outcome: Outcome): Option<Extracted> {
    match outcome
    case Parsed(d) => Some(d)
    case NoOcrRows(d, _) => Some(d)
    case _ => None
  }

  /** `parseError` after the handler. */
  function ParseErrorAfter(outcome: Outcome): Option<string> {
    match outcome
    case Failed(m) => Some(m)
    case NoOcrRows(_, m) => Some(m)
    case _ => None
  }

  // ---- properties of the upload handler ----

  /** Extracted data with no rows comes only from an image whose OCR found none; every other branch turns no rows into an error. */
  lemma {:induction false} ZeroRowsOnlyFromOcr(file: Option<FileInfo>, text: string, csv: CsvParse, json: Option<JsValue>,
                                               ocr: Result<Option<OcrJson>, string>)
    ensures var o := UploadOutcome(file, text, csv, json, ocr);
      ExtractedAfter(o).Some? && ExtractedAfter(o).value.rows == 0 ==>
        file.Some? && BranchOf(file.value) == ImageBranch && o.NoOcrRows? && ParseErrorAfter(o) == Some(NoOcrRowsMessage)
  {
    if file.Some? {
      BranchZeroRows(BranchOf(file.value), CsvRows(csv), JsonUpload(json), PlainRows(text), ocr);
    }
  }

  lemma {:induction false} BranchZeroRows(branch: Branch, csvRows: Result<seq<Row>, string>, jsonRows: Option<seq<Row>>,
                                          textRows: seq<Row>, ocr: Result<Option<OcrJson>, string>)
    ensures var o := BranchOutcome(branch, csvRows, jsonRows, textRows, ocr);
      ExtractedAfter(o).Some? && ExtractedAfter(o).value.rows == 0 ==>
        branch == ImageBranch && o.NoOcrRows? && ParseErrorAfter(o) == Some(NoOcrRowsMessage)
  {
  }

  /** Whatever is extracted keeps the full row count and at most the first 200 rows for preview. */
  lemma {:induction false} ExtractedIsPreview(file: Option<FileInfo>, text: string, csv: CsvParse, json: Option<JsValue>,
                                              ocr: Result<Option<OcrJson>, string>)
    ensures var o := UploadOutcome(file, text, csv, json, ocr);
      o.Parsed? ==> o.data.rows > 0 && |o.data.preview| == (if o.data.rows < 200 then o.data.rows else 200)
  {
    if file.Some? {
      BranchPreview(BranchOf(file.value), CsvRows(csv), JsonUpload(json), PlainRows(text), ocr);
    }
  }

  lemma {:induction false} BranchPreview(branch: Branch, csvRows: Result<seq<Row>, string>, jsonRows: Option<seq<Row>>,
                                         textRows: seq<Row>, ocr: Result<Option<OcrJson>, string>)
    ensures var o := BranchOutcome(branch, csvRows, jsonRows, textRows, ocr);
      o.Parsed? ==> o.data.rows > 0 && |o.data.preview| == (if o.data.rows < 200 then o.data.rows else 200)
  {
  }

  /** A CSV parser error is reported as the handler's error. */
  lemma {:induction false} CsvErrorReported(file: FileInfo, text: string, csv: CsvParse, json: Option<JsValue>,
                                            ocr: Result<Option<OcrJson>, string>)
    requires BranchOf(file) == CsvBranch && |csv.errors| > 0
    ensures UploadOutcome(Some(file), text, csv, json, ocr) == Failed("CSV parse error: " + csv.errors[0])
  {
    CsvErrorAborts(csv);
  }

  /** The extension tests come first: a `.csv`, `.json` or `.txt` name is never sent to OCR, whatever its MIME type. */
  lemma {:induction false} ExtensionBeforeMime(name: string, mime: string, mime2: string)
    requires EndsWith(ToLower(name), ".csv") || EndsWith(ToLower(name), ".json") || EndsWith(ToLower(name), ".txt")
    ensures BranchOf(FileInfo(name, mime)) == BranchOf(FileInfo(name, mime2)) != ImageBranch
  {
  }

  /** An image's outcome depends only on the OCR request. */
  lemma {:induction false} ImageUsesOnlyOcr(file: FileInfo, text: string, csv: CsvParse, json: Option<JsValue>,
                                            text2: string, csv2: CsvParse, json2: Option<JsValue>,
                                            ocr: Result<Option<OcrJson>, string>)
    requires BranchOf(file) == ImageBranch
    ensures UploadOutcome(Some(file), text, csv, json, ocr) == UploadOutcome(Some(file), text2, csv2, json2, ocr)
  {
  }

  /** The extension test ignores case: `DATA.CSV` and `data.Csv` go to the CSV parser like `data.csv`. */
  lemma {:induction false} CsvExtensionIgnoresCase(name: string, mime: string)
    requires |name| >= 4 && name[|name| - 4] == '.'
    requires name[|name| - 3] in "cC" && name[|name| - 2] in "sS" && name[|name| - 1] in "vV"
    ensures BranchOf(FileInfo(name, mime)) == CsvBranch
  {
    var lower := ToLower(name);
    var n := |name|;
    assert lower[n - 4..] == ".csv" by {
      assert lower[n - 4] == '.' && lower[n - 3] == 'c' && lower[n - 2] == 's' && lower[n - 1] == 'v';
    }
  }

  // ---- handleEncryptAndSubmit ----

  /** `metricInt.toString()`. */
  function IntToString(i: int): string {
    if i < 0 then "-" + NatToString(-i) else NatToString(i)
  }

  /** The body posted to `/api/submit`. */
  datatype SubmitBody = SubmitBody(algorithm: string, preview: seq<Row>, ciphertext: string, meta: JsValue)

  function MetaOf(filename: string, metricInt: int): JsValue {
    JObj([("filename", JStr(filename)), ("scale", JNum(FixedScale as real)), ("metricInt", JStr(IntToString(metricInt)))])
  }

  const GuardMessage := "Please select algorithm and upload a parsable file first"
  const OnlyPaillierMessage := "Only Paillier is implemented in this demo. CKKS coming soon."

  /** What `handleEncryptAndSubmit` posts, or the error it shows; `encrypt` is `publicKey.encrypt` under the fetched key. */
  function SubmitRequest(algorithm: string, file: Option<FileInfo>, data: Option<Extracted>, encrypt: int -> nat): (r: Result<SubmitBody, string>)
    ensures r.Failure? ==> r.error == GuardMessage || r.error == OnlyPaillierMessage
    ensures r.Success? ==>
      && data.Some? && r.value.algorithm == "paillier" && r.value.preview == data.value.preview
      && Codec.Base64ToBigint(r.value.ciphertext) == Some(encrypt(ScaleMetric(DemoMetric(data))))
  {
    Codec.Base64RoundTrip(encrypt(ScaleMetric(DemoMetric(data))));
    if algorithm == "" || file.None? || data.None? then Failure(GuardMessage)
    else if algorithm != "paillier" then Failure(OnlyPaillierMessage)
    else
      var metricInt := ScaleMetric(DemoMetric(data));
      Success(SubmitBody("paillier", data.value.preview, Codec.BigintToBase64(encrypt(metricInt)), MetaOf(file.value.name, metricInt)))
  }

  /** `handleEncryptAndSubmit`, up to the request it posts. */
  method EncryptAndSubmit(algorithm: string, file: Option<FileInfo>, data: Option<Extracted>, encrypt: int -> nat)
    returns (request: Result<SubmitBody, string>)
    ensures request == SubmitRequest(algorithm, file, data, encrypt)
  {
    if algorithm == "" || file.None? || data.None? {
      return Failure(GuardMessage);
    }
    if algorithm != "paillier" {
      return Failure(OnlyPaillierMessage);
    }
    var metric := ComputeDemoMetric(data);
    var metricInt := ScaleMetric(metric);
    var ciphertext := encrypt(metricInt);
    var ciphertextB64 := Codec.BigintToBase64(ciphertext);
    request := Success(SubmitBody("paillier", data.value.preview, ciphertextB64, MetaOf(file.value.name, metricInt)));
  }

  /** A request is posted exactly when algorithm, file and data are all present and the algorithm is Paillier. */
  lemma {:induction false} SubmitGuards(algorithm: string, file: Option<FileInfo>, data: Option<Extracted>, encrypt: int -> nat)
    ensures SubmitRequest(algorithm, file, data, encrypt).Success? <==>
      algorithm == "paillier" && file.Some? && data.Some?
    ensures algorithm != "" && algorithm != "paillier" && file.Some? && data.Some? ==>
      SubmitRequest(algorithm, file, data, encrypt) == Failure(OnlyPaillierMessage)
  {
  }

  /**
   * The posted `meta` records the file name, `scale: 100` and, as decimal
   * text, the very integer whose encryption is the posted ciphertext;
   * for a non-negative metric that text reads back as the integer.
   */
  lemma {:induction false} SubmitMeta(algorithm: string, file: Option<FileInfo>, data: Option<Extracted>, encrypt: int -> nat)
    ensures var r := SubmitRequest(algorithm, file, data, encrypt);
      var metricInt := ScaleMetric(DemoMetric(data));
      r.Success? ==>
        && file.Some?
        && Get(r.value.meta, "filename") == JStr(file.value.name)
        && Get(r.value.meta, "scale") == JNum(100.0)
        && Get(r.value.meta, "metricInt") == JStr(IntToString(metricInt))
        && Codec.Base64ToBigint(r.value.ciphertext) == Some(encrypt(metricInt))
        && (metricInt >= 0 ==> StringToNumber(IntToString(metricInt)) == Some(metricInt as real))
  {
    var metricInt := ScaleMetric(DemoMetric(data));
    if SubmitRequest(algorithm, file, data, encrypt).Success? {
      ThreeFieldsReadBack("filename", JStr(file.value.name), "scale", JNum(FixedScale as real), "metricInt", JStr(IntToString(metricInt)));
      if metricInt >= 0 {
        StringToNumberOfNatString(metricInt);
      }
    }
  }

  /** The posted ciphertext is never empty, so the server's missing-ciphertext check never fires for it. */
  lemma {:induction false} PostedCiphertextNonEmpty(x: nat)
    ensures |Codec.BigintToBase64(x)| >= 4
  {
    var bytes := Codec.HexPairs(Codec.PadEven(Codec.ToHex(x)));
    assert |bytes| >= 1;
  }

  /** The posted ciphertext reads back, on the server, as the encryption of the scaled metric. */
  lemma {:induction false} PostedCiphertextReadsBack(algorithm: string, file: Option<FileInfo>, data: Option<Extracted>, encrypt: int -> nat)
    requires SubmitRequest(algorithm, file, data, encrypt).Success?
    ensures Codec.Base64ToBigint(SubmitRequest(algorithm, file, data, encrypt).value.ciphertext)
      == Some(encrypt(ScaleMetric(DemoMetric(data))))
  {
    Codec.Base64RoundTrip(encrypt(ScaleMetric(DemoMetric(data))));
  }

  /** An image whose OCR found no rows still lets the user submit: the metric submitted is 0. */
  lemma {:induction false} ImageWithoutRowsSubmitsZero(file: FileInfo, text: Option<string>, rows: Option<seq<Row>>, encrypt: int -> nat)
    requires rows.None? || rows.value == []
    ensures var o := OcrOutcome(Success(Some(OcrJson(rows, text))));
      && o == NoOcrRows(Extracted(0, [], text), NoOcrRowsMessage)
      && SubmitRequest("paillier", Some(file), ExtractedAfter(o), encrypt)
         == Success(SubmitBody("paillier", [], Codec.BigintToBase64(encrypt(0)), MetaOf(file.name, 0)))
  {
    assert Total([]) == 0.0;
    ScaleMetricOfCents(0);
  }

  // ---- handleDecryptAggregate ----

  /** `j.scale || 100`, coerced by the division: a truthy scale goes through `Number`, a falsy one is 100. */
  function DisplayDivisor(scale: JsValue): (d: Option<real>)
    ensures !Truthy(scale) ==> d == Some(100.0)
    ensures d == Some(0.0) ==> Truthy(scale) && JsNumber(scale) == Some(0.0)
  {
    if Truthy(scale) then JsNumber(scale) else Some(100.0)
  }

  /** A numeric or absent scale divides as `Unscale` does: zero, like a missing scale, means 100. */
  lemma {:induction false} NumericScaleDivisor(scale: JsValue)
    requires scale.JNum? || scale.JUndefined?
    ensures var x := if scale.JNum? then scale.x else 0.0;
      DisplayDivisor(scale) == Some(if x == 0.0 then 100.0 else x)
  {
  }

  /**
   * `Number(j.plaintext) / (j.scale || 100)`. None stands for a result that
   * is not a finite number: NaN from either side, or a division by a zero
   * divisor (a truthy scale such as `"0"` or `[]`).
   */
  function DisplayedAggregate(body: JsValue): (d: Option<real>)
    ensures d.Some? <==>
      && JsNumber(Get(body, "plaintext")).Some? && DisplayDivisor(Get(body, "scale")).Some?
      && DisplayDivisor(Get(body, "scale")).value != 0.0
    ensures d.Some? ==>
      d.value * DisplayDivisor(Get(body, "scale")).value == JsNumber(Get(body, "plaintext")).value
  {
    match (JsNumber(Get(body, "plaintext")), DisplayDivisor(Get(body, "scale")))
    case (Some(p), Some(q)) =>
      if q == 0.0 then None else Some(Unscale(p, q))
    case _ => None
  }

  /** The plaintext and scale fields of a two-field body, read back by name. */
  lemma {:induction false} PlaintextScaleFields(plaintext: JsValue, scale: JsValue)
    ensures var body := JObj([("plaintext", plaintext), ("scale", scale)]);
      Get(body, "plaintext") == plaintext && Get(body, "scale") == scale
  {
    var fields := [("plaintext", plaintext), ("scale", scale)];
    assert fields[..1] == [("plaintext", plaintext)];
    assert LastField(fields[..1], "plaintext") == plaintext;
  }

  /**
   * `Number` coerces what is not text: a numeric plaintext 5 shows 0.05, a
   * null one 0, a `true` scale divides by 1, and the truthy scale `[]` is a
   * division by zero.
   */
  lemma {:induction false} DisplayCoercesValues()
    ensures DisplayedAggregate(JObj([("plaintext", JNum(5.0)), ("scale", JNum(100.0))])) == Some(0.05)
    ensures DisplayedAggregate(JObj([("plaintext", JNull), ("scale", JNum(100.0))])) == Some(0.0)
    ensures DisplayedAggregate(JObj([("plaintext", JNum(5.0)), ("scale", JBool(true))])) == Some(5.0)
    ensures DisplayedAggregate(JObj([("plaintext", JNum(5.0)), ("scale", JArr([]))])) == None
  {
    PlaintextScaleFields(JNum(5.0), JNum(100.0));
    PlaintextScaleFields(JNull, JNum(100.0));
    PlaintextScaleFields(JNum(5.0), JBool(true));
    PlaintextScaleFields(JNum(5.0), JArr([]));
  }

  /** The decryption route's three fields, read back by name. */
  lemma {:induction false} DecryptBodyFields(plaintext: string, count: nat)
    ensures var body := JObj([("plaintext", JStr(plaintext)), ("scale", JNum(100.0)), ("count", JNum(count as real))]);
      Get(body, "plaintext") == JStr(plaintext) && Get(body, "scale") == JNum(100.0)
  {
    var fields := [("plaintext", JStr(plaintext)), ("scale", JNum(100.0)), ("count", JNum(count as real))];
    assert LastField(fields[..1], "plaintext") == JStr(plaintext);
    assert fields[..2][..1] == fields[..1];
    assert LastField(fields[..2], "plaintext") == JStr(plaintext);
    assert fields[..3][..2] == fields[..2];
    assert fields[..3] == fields;
    assert LastField(fields, "plaintext") == JStr(plaintext);
    assert LastField(fields[..2], "scale") == JNum(100.0);
  }

  /** A decrypted plaintext `p` with scale 100 is displayed as `p / 100`. */
  lemma {:induction false} DisplayedPlaintext(p: nat, count: nat)
    ensures DisplayedAggregate(JObj([("plaintext", JStr(NatToString(p))), ("scale", JNum(100.0)), ("count", JNum(count as real))]))
      == Some(p as real / 100.0)
  {
    DecryptBodyFields(NatToString(p), count);
    StringToNumberOfNatString(p);
  }
}
