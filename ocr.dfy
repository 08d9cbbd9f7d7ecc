/**
 * The server's classification of an OCR result (`POST /api/ocr`): what it
 * answers for a missing upload, a recognition failure, blank text, text
 * without rows and text with rows. The recognition itself is not part
 * of this model; its outcome is an input.
 */
module OcrRoute {
  import opened Wrappers
  import opened JsText
  import opened Records
  import opened PlainText

  /** What the recognition worker produced: `data.text` (possibly absent), or an error with an optional message. */
  datatype Recognition = Recognized(text: Option<string>) | RecognitionFailed(message: Option<string>)

  /** The route's answer: an error status with its message, or 200 with the rows, the raw text and an optional note. */
  datatype OcrReply =
    | OcrFailed(status: nat, error: string)
    | OcrRows(rows: seq<Row>, text: string, message: Option<string>)

  const NoRowsNote := "OCR succeeded but no tabular rows detected"

  /** `data?.text || ""`. */
  function RawText(text: Option<string>): (raw: string)
    ensures text.Some? ==> raw == text.value
    ensures text.None? ==> raw == ""
  {
    text.GetOr("")
  }

  /** `POST /api/ocr`, from whether a file arrived and what recognition produced. */
  function OcrResponse(hasFile: bool, recognition: Recognition): (r: OcrReply)
    ensures !hasFile <==> r == OcrFailed(400, "no file uploaded")
    ensures hasFile && r.OcrFailed? ==> r.status == 500
    ensures r.OcrRows? ==> recognition.Recognized? && r.text == RawText(recognition.text) && r.rows == PlainRows(r.text)
    ensures r.OcrRows? ==> (r.message.Some? <==> r.rows == [])
  {
    if !hasFile then OcrFailed(400, "no file uploaded")
    else match recognition
      case RecognitionFailed(m) =>
        OcrFailed(500, "OCR failed: " + (if m.Some? && m.value != "" then m.value else "unknown"))
      case Recognized(t) =>
        var raw := RawText(t);
        if raw == "" || Trim(raw) == "" then OcrFailed(500, "OCR produced empty text")
        else
          var rows := PlainRows(raw);
          if rows == [] then OcrRows([], raw, Some(NoRowsNote)) else OcrRows(rows, raw, None)
  }

  /** A 200 answer carries exactly the rows parsed from the recognised text, and the note exactly when there are none. */
  lemma {:induction false} OcrRowsAreParsed(hasFile: bool, recognition: Recognition)
    requires OcrResponse(hasFile, recognition).OcrRows?
    ensures var r := OcrResponse(hasFile, recognition);
      && hasFile && recognition.Recognized?
      && r.text == RawText(recognition.text) && Trim(r.text) != ""
      && r.rows == PlainRows(r.text)
      && (r.message.Some? <==> r.rows == [])
      && (r.message.Some? ==> r.message.value == NoRowsNote)
  {
  }

  /** Recognised text that is blank after trimming is an error, not an empty table. */
  lemma {:induction false} BlankTextFails(text: Option<string>)
    requires Trim(RawText(text)) == ""
    ensures OcrResponse(true, Recognized(text)) == OcrFailed(500, "OCR produced empty text")
  {
  }

  /** Answers with status 500 are exactly the recognition failures and the blank texts, once a file arrived. */
  lemma {:induction false} ServerErrorsClassified(recognition: Recognition)
    ensures OcrResponse(true, recognition).OcrFailed? <==>
      recognition.RecognitionFailed? || Trim(RawText(recognition.text)) == ""
    ensures OcrResponse(true, recognition).OcrFailed? ==> OcrResponse(true, recognition).status == 500
  {
    if recognition.Recognized? && RawText(recognition.text) == "" {
      assert Trim("") == "";
    }
  }
}
