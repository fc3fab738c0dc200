/** What the two upload endpoints (pages/api/parse-resume.js and
    pages/api/extract-text.js) share: the multipart form result, the choice
    of the temporary file's path, the PDF text read from it, and the guard
    on how much text it holds. */
module Uploads {
  import opened Strings
  import opened JsValues

  /** `files.resume` after the form is parsed: absent, one file object, or
      an array of file objects (each given by its `filepath`). */
  datatype Upload = NoUpload | Single(filepath: string) | Multiple(filepaths: seq<string>)

  /** The outcome of the form parser: an error (the promise rejects) or the
      `resume` field. */
  datatype FormResult = FormError(message: string) | FormParsed(resume: Upload)

  /** The outcome of reading the temporary file and extracting its text;
      either step can throw. */
  datatype PdfResult = PdfText(text: string) | PdfError(message: string)

  /** The outcome of `fs.unlinkSync` on the temporary file: deleted, or the
      call throws. */
  datatype UnlinkResult = Unlinked | UnlinkError(message: string)

  const MinTextLength := 100

  /** `Array.isArray(u) ? u[0].filepath : u.filepath` for a present upload;
      `None` for an empty array, whose element 0 is `undefined` and has no
      `filepath` (a TypeError). */
  function FilePath(u: Upload): (r: Option<string>)
    requires !u.NoUpload?
    ensures u.Single? ==> r == Some(u.filepath)
    ensures u.Multiple? && |u.filepaths| > 0 ==> r == Some(u.filepaths[0])
    ensures r.None? <==> u.Multiple? && u.filepaths == []
  {
    match u
    case Single(path) => Some(path)
    case Multiple(paths) => if |paths| == 0 then None else Some(paths[0])
  }

  /** The path of the temporary file a handler reads, when it gets that
      far: the request is a POST, the form parsed, the upload is present and
      its path could be taken. */
  function ReadPath(httpMethod: string, form: FormResult): (r: Option<string>)
    ensures r.Some? ==> httpMethod == "POST" && form.FormParsed? && !form.resume.NoUpload?
    ensures httpMethod == "POST" && form.FormParsed? && !form.resume.NoUpload? ==> r == FilePath(form.resume)
  {
    if httpMethod == "POST" && form.FormParsed? && !form.resume.NoUpload? then FilePath(form.resume)
    else None
  }

  /** `!text || text.trim().length < 100`. */
  predicate TooShort(text: string): (b: bool)
    ensures !b ==> |text| >= MinTextLength
    ensures text == "" ==> b
  {
    text == "" || |Trim(text)| < MinTextLength
  }

  /** Text that passes the guard is not blank: it has a character that is
      not white space. */
  lemma {:induction false} PassingTextNotBlank(text: string)
    requires !TooShort(text)
    ensures !AllSpace(text)
    ensures Trim(text) != ""
  {
    TrimEmptyIffAllSpace(text);
  }

  /** White space alone never passes the guard, however long. */
  lemma BlankTextTooShort(text: string)
    requires AllSpace(text)
    ensures TooShort(text)
  {
    TrimEmptyIffAllSpace(text);
  }

  /** Surrounding white space neither helps nor hurts: the guard looks at
      the trimmed text only. */
  lemma {:induction false} GuardIgnoresPadding(pad: string, text: string)
    requires AllSpace(pad)
    ensures TooShort(pad + text) <==> TooShort(text)
  {
    var s := pad + text;
    var t := TrimStart(s);
    assert TrimStart(s) == TrimStart(text) by {
      PaddedTrimStart(pad, text);
    }
  }

  lemma {:induction false} PaddedTrimStart(pad: string, text: string)
    requires AllSpace(pad)
    ensures TrimStart(pad + text) == TrimStart(text)
  {
    if pad != [] {
      assert (pad + text)[1..] == pad[1..] + text;
      PaddedTrimStart(pad[1..], text);
    } else {
      assert pad + text == text;
    }
  }
}
