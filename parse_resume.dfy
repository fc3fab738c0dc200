/** The resume parsing endpoint (pages/api/parse-resume.js:14-142): the
    uploaded PDF's text is turned into structured JSON by one model call. */
module ParseResume {
  import opened Strings
  import opened JsValues
  import opened ModelOutput
  import opened Retry
  import opened Uploads

  /** The outcome of `JSON.parse`. */
  datatype JsonParse = Parsed(value: JsValue) | ParseError(message: string)

  const NoUploadError := "No resume file uploaded"
  const ShortTextError := "Could not extract text from PDF. Please ensure it's a text-based PDF, not a scanned image."
  const FailureError := "Failed to parse resume"
  const SuccessMessage := "Resume parsed successfully"

  /** The body of the 200 reply. */
  function SuccessBody(data: JsValue): JsValue {
    Obj(map["success" := Bool(true), "data" := data, "message" := Str(SuccessMessage)])
  }

  /** The reply for an error thrown inside the handler's `try`. */
  function Failure(message: string): Response {
    JsonReply(500, ErrorDetailsBody(FailureError, message))
  }

  /** The request handler. `read` stands for reading the file and extracting
      its text, `unlink` for deleting it, `answer` for the model's reply,
      `parse` for `JSON.parse`. The ghost result `unlinked` is the temporary
      file deleted, if any. */
  method Handle(httpMethod: string, form: FormResult, read: string -> PdfResult,
                unlink: string -> UnlinkResult, answer: Attempt, parse: string -> JsonParse)
    returns (resp: Response, ghost unlinked: Option<string>)
    ensures httpMethod != "POST" ==> resp == JsonReply(405, ErrorBody("Method not allowed"))
    ensures httpMethod == "POST" && form.FormError? ==> resp == Failure(form.message)
    ensures httpMethod == "POST" && form.FormParsed? && form.resume.NoUpload? ==>
      resp == JsonReply(400, ErrorBody(NoUploadError))
    ensures httpMethod == "POST" && form.FormParsed? && form.resume == Multiple([]) ==>
      resp == Failure(TypeErrorMessage)
    // The file is deleted exactly when it was read without error and the
    // deletion did not throw.
    ensures unlinked.Some? <==>
      ReadPath(httpMethod, form).Some? && read(ReadPath(httpMethod, form).value).PdfText? &&
      unlink(ReadPath(httpMethod, form).value).Unlinked?
    ensures unlinked.Some? ==> unlinked == ReadPath(httpMethod, form)
    ensures ReadPath(httpMethod, form).Some? ==>
      match read(ReadPath(httpMethod, form).value)
      case PdfError(message) => resp == Failure(message)
      case PdfText(text) =>
        match unlink(ReadPath(httpMethod, form).value)
        case UnlinkError(message) => resp == Failure(message)
        case Unlinked =>
          if TooShort(text) then resp == JsonReply(400, ErrorBody(ShortTextError))
          else match answer
            case Failed(message) => resp == Failure(message)
            case Answered(content) =>
              match parse(CleanJson(content))
              case ParseError(message) => resp == Failure(message)
              case Parsed(data) => resp == JsonReply(200, SuccessBody(data))
    ensures resp.Status() == 200 ==> unlinked.Some?
  {
    unlinked := None;
    if httpMethod != "POST" {
      return JsonReply(405, ErrorBody("Method not allowed")), None;
    }
    if form.FormError? {
      return Failure(form.message), None;
    }
    var uploaded := form.resume;
    if uploaded.NoUpload? {
      return JsonReply(400, ErrorBody(NoUploadError)), None;
    }
    var path := FilePath(uploaded);
    if path.None? {
      return Failure(TypeErrorMessage), None;
    }
    var extracted := read(path.value);
    if extracted.PdfError? {
      return Failure(extracted.message), None;
    }
    var text := extracted.text;
    var removed := unlink(path.value);
    if removed.UnlinkError? {
      return Failure(removed.message), None;
    }
    unlinked := Some(path.value);
    if TooShort(text) {
      return JsonReply(400, ErrorBody(ShortTextError)), unlinked;
    }
    if answer.Failed? {
      return Failure(answer.message), unlinked;
    }
    var jsonText := CleanJson(answer.content);
    var parsed := parse(jsonText);
    if parsed.ParseError? {
      return Failure(parsed.message), unlinked;
    }
    resp := JsonReply(200, SuccessBody(parsed.value));
  }

  /** A reply the model wrapped in a `json` fence reaches `JSON.parse` as the
      bare document. */
  lemma FencedJsonParsed(doc: string)
    requires IsTrimmed(doc) && NoTick(doc)
    ensures CleanJson(Fenced(doc, "json")) == doc
  {
    FencedAnswerCleaned(doc, "json");
  }

  /** Whatever the model answers, `JSON.parse` is given text without white
      space at either end and without a run of three backticks. */
  lemma ParsedTextShape(content: string)
    ensures IsTrimmed(CleanJson(content)) && NoFence(CleanJson(content))
  {
  }
}
