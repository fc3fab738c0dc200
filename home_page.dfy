/** The upload page (pages/index.js): its state, the drag-and-drop and file
    picker rules, the `generatePDF` workflow with its guards and `disable`
    flag, the download name it gives the PDF, and the company preview. */
module HomePage {
  import opened Strings
  import opened JsValues
  import opened FileNames
  import Generate

  const PdfType := "application/pdf"
  const NoFileAlert := "Please upload your resume PDF"
  const NoJdAlert := "Please enter the Job Description"
  const DropTypeAlert := "Please upload a PDF file"
  const PickTypeAlert := "Please select a PDF file"
  const ParseFailed := "Failed to parse resume"
  const GenerateFailed := "Failed to generate PDF"
  const ErrorPrefix := "Error: "

  /** Stands for `String(v)` of an `error` field that is truthy but not a
      string; the conversion itself is not modelled. */
  const NonStringError := "[non-string error]"

  /** A file chosen by the user, with its MIME type. */
  datatype FileRef = FileRef(name: string, mimeType: string)

  /** A request the page sends, and whether `disable` was set when it went
      out. */
  datatype Fetch =
    | ParseFetch(file: FileRef, whileDisabled: bool)
    | GenerateFetch(body: JsValue, whileDisabled: bool)

  /** What `fetch` resolves to: a network failure, or a reply with its `ok`
      flag and its JSON body. */
  datatype HttpReply = NetworkError(message: string) | Reply(ok: bool, body: JsValue)

  /** All of the page's state at one moment. */
  datatype Page = Page(
    file: Option<FileRef>, company: string, jd: string, disable: bool, dragActive: bool,
    alerts: seq<string>, fetches: seq<Fetch>, downloads: seq<string>)

  /** `{ resumeJson, jd, company }`, the body of the generate request. */
  function GenerateBody(resumeJson: JsValue, jd: string, company: string): (r: JsValue)
    ensures Get(r, "resumeText") == Some(Undefined)
    ensures Get(r, "resumeJson") == Some(resumeJson)
    ensures Get(r, "jd") == Some(Str(jd)) && Get(r, "company") == Some(Str(company))
  {
    Obj(map["resumeJson" := resumeJson, "jd" := Str(jd), "company" := Str(company)])
  }

  /** `errorData.error || "Failed to parse resume"`; `errorData` of `null`
      has no properties (a TypeError). */
  function ParseErrorMessage(errorData: JsValue): (r: string)
    ensures errorData.Undefined? || errorData.Null? ==> r == TypeErrorMessage
    ensures Get(errorData, "error").Some? && !Truthy(Get(errorData, "error").value) ==> r == ParseFailed
    ensures Get(errorData, "error").Some? && Get(errorData, "error").value.Str? && Truthy(Get(errorData, "error").value) ==>
      r == Get(errorData, "error").value.s
    ensures Get(errorData, "error").Some? && Truthy(Get(errorData, "error").value) && !Get(errorData, "error").value.Str? ==>
      r == NonStringError
  {
    match Get(errorData, "error")
    case None => TypeErrorMessage
    case Some(error) =>
      if !Truthy(error) then ParseFailed
      else if error.Str? then error.s
      else NonStringError
  }

  /** Lines 100-113: the name the browser gives the downloaded PDF, for the
      parsed resume and the company typed in; `None` where the code throws
      a TypeError (no resume object, or a truthy `name` that is not a
      string). */
  function ClientFileName(resumeJson: JsValue, company: string): (r: Option<string>)
    ensures r.None? <==>
      resumeJson.Undefined? || resumeJson.Null? ||
      (Truthy(Get(resumeJson, "name").value) && !Get(resumeJson, "name").value.Str?)
    ensures r.Some? ==> EndsWith(r.value, Extension)
  {
    match Get(resumeJson, "name")
    case None => None
    case Some(name) =>
      if !Truthy(name) then FallbackShape(); Some(Fallback)
      else if !name.Str? then None
      else if Trim(name.s) == "" then EndsWithAppend(CompanyPart(company), Extension); Some(CompanyPart(company) + Extension)
      else Some(DownloadName(name.s, company))
  }

  /** A resume whose `name` is a string with something besides white space
      gets the same file name in the browser as on the server, where the
      name is the trimmed heading text. */
  lemma ClientAgreesWithServer(resumeJson: JsValue, name: string, company: string)
    requires Get(resumeJson, "name") == Some(Str(name)) && !AllSpace(name)
    ensures ClientFileName(resumeJson, company) == Generate.FileNameFor(Trim(name), Str(company))
  {
    TrimEmptyIffAllSpace(name);
    ClientNamed(resumeJson, name, company);
    TrimmedDownloadName(name, company);
    Generate.FileNameForNamed(Trim(name), Str(company));
  }

  /** A string name that trims to something is named by the shared rule. */
  lemma ClientNamed(resumeJson: JsValue, name: string, company: string)
    requires Get(resumeJson, "name") == Some(Str(name)) && Trim(name) != ""
    ensures ClientFileName(resumeJson, company) == Some(DownloadName(name, company))
  {
  }

  /** The download name trims the name first, so trimming beforehand
      changes nothing. */
  lemma TrimmedDownloadName(name: string, company: string)
    ensures DownloadName(Trim(name), company) == DownloadName(name, company)
  {
    TrimIdempotent(name);
  }

  /** A missing or empty name gives `Resume.pdf`, as on the server. */
  lemma ClientFallback(resumeJson: JsValue, company: string)
    requires !resumeJson.Undefined? && !resumeJson.Null? && !Truthy(Get(resumeJson, "name").value)
    ensures ClientFileName(resumeJson, company) == Some(Fallback)
  {
  }

  /** A name of white space only is truthy, trims to nothing and splits
      into one empty word: the browser names the file after the company
      part alone (`.pdf` with no company), where the server says
      `Resume.pdf`. */
  lemma BlankNameDiverges(resumeJson: JsValue, name: string, company: string)
    requires Get(resumeJson, "name") == Some(Str(name)) && name != "" && AllSpace(name)
    ensures ClientFileName(resumeJson, company) == Some(CompanyPart(company) + Extension)
    ensures Generate.FileNameFor(Trim(name), Str(company)) == Some(Fallback)
  {
    TrimEmptyIffAllSpace(name);
  }

  /** The placeholder name of the company preview. */
  const PreviewFirst := "Firstname"
  const PreviewLast := "Lastname"

  /** Lines 240-254: the file name shown under the company field. */
  function CompanyPreview(company: string): (r: Option<string>)
    ensures r.Some? <==> company != ""
  {
    if company == "" then None
    else Some(PreviewFirst + "_" + PreviewLast + "_" + Capitalize(company) + Extension)
  }

  /** The placeholder words are single words. */
  lemma PlaceholdersAreWords()
    ensures PreviewFirst != [] && NoSpace(PreviewFirst)
    ensures PreviewLast != [] && NoSpace(PreviewLast)
  {
  }

  /** The placeholder words are already in capitalised form. */
  lemma FirstPlaceholderCapitalised()
    ensures CapWord(PreviewFirst) == PreviewFirst
  {
    CapWordOfCapitalized(PreviewFirst);
  }

  lemma LastPlaceholderCapitalised()
    ensures CapWord(PreviewLast) == PreviewLast
  {
    CapWordOfCapitalized(PreviewLast);
  }

  /** For two single words and a company, the download name is the two
      words capitalised and joined by `_`, then `_` and the capitalised
      company. */
  lemma PairWithCompany(first: string, last: string, company: string)
    requires company != ""
    requires first != [] && NoSpace(first) && last != [] && NoSpace(last)
    ensures DownloadName(first + " " + last, company)
         == CapWord(first) + "_" + CapWord(last) + "_" + Capitalize(company) + Extension
  {
    TwoWords(first, last, company);
    StemThenCompany(CapWord(first) + "_" + CapWord(last), company);
  }

  lemma StemThenCompany(stem: string, company: string)
    requires company != ""
    ensures stem + CompanyPart(company) + Extension == stem + "_" + Capitalize(company) + Extension
  {
    var cap := Capitalize(company);
    assert stem + ("_" + cap) == stem + "_" + cap;
  }

  /** The preview is the name a resume for "Firstname Lastname" gets. */
  lemma PreviewMatchesDownload(company: string)
    requires company != ""
    ensures CompanyPreview(company) == Some(DownloadName(PreviewFirst + " " + PreviewLast, company))
  {
    PlaceholdersAreWords();
    FirstPlaceholderCapitalised();
    LastPlaceholderCapitalised();
    PairWithCompany(PreviewFirst, PreviewLast, company);
  }

  /** The page's request to the generate endpoint never carries
      `resumeText`, so the endpoint always turns it away with 400. */
  lemma GenerateRequestRejected(resumeJson: JsValue, jd: string, company: string)
    ensures Generate.Guard("POST", GenerateBody(resumeJson, jd, company))
         == Some(TextReply(400, "Resume text required"))
  {
    assert "resumeText" !in GenerateBody(resumeJson, jd, company).fields;
  }

  class Home {
    var file: Option<FileRef>
    var company: string
    var jd: string
    var disable: bool
    var dragActive: bool
    var alerts: seq<string>
    var fetches: seq<Fetch>
    var downloads: seq<string>

    function View(): Page
      reads this
    {
      Page(file, company, jd, disable, dragActive, alerts, fetches, downloads)
    }

    /** The page keeps only PDF files, and every request it has sent went
        out while `disable` was set. */
    predicate Valid()
      reads this
    {
      (file.Some? ==> file.value.mimeType == PdfType) &&
      forall i :: 0 <= i < |fetches| ==> fetches[i].whileDisabled
    }

    /** Lines 4-8: the initial state. */
    constructor ()
      ensures View() == Page(None, "", "", false, false, [], [], [])
      ensures Valid()
    {
      file := None;
      company := "";
      jd := "";
      disable := false;
      dragActive := false;
      alerts := [];
      fetches := [];
      downloads := [];
    }

    /** Lines 11-19. */
    method HandleDrag(eventType: string)
      modifies this
      requires Valid()
      ensures Valid()
      ensures View() == old(View()).(dragActive :=
        if eventType == "dragenter" || eventType == "dragover" then true
        else if eventType == "dragleave" then false
        else old(dragActive))
    {
      if eventType == "dragenter" || eventType == "dragover" {
        dragActive := true;
      } else if eventType == "dragleave" {
        dragActive := false;
      }
    }

    /** Lines 21-34: a drop clears the drag flag; the first dropped file is
        kept if it is a PDF, otherwise the user is told. */
    method HandleDrop(files: seq<FileRef>)
      modifies this
      requires Valid()
      ensures Valid()
      ensures |files| == 0 ==> View() == old(View()).(dragActive := false)
      ensures |files| > 0 && files[0].mimeType == PdfType ==>
        View() == old(View()).(dragActive := false, file := Some(files[0]))
      ensures |files| > 0 && files[0].mimeType != PdfType ==>
        View() == old(View()).(dragActive := false, alerts := old(alerts) + [DropTypeAlert])
    {
      dragActive := false;
      if |files| > 0 {
        var dropped := files[0];
        if dropped.mimeType == PdfType {
          file := Some(dropped);
        } else {
          alerts := alerts + [DropTypeAlert];
        }
      }
    }

    /** Lines 36-45: the same rule for the file picker, with its own
        message. */
    method HandleFileChange(files: seq<FileRef>)
      modifies this
      requires Valid()
      ensures Valid()
      ensures |files| == 0 ==> View() == old(View())
      ensures |files| > 0 && files[0].mimeType == PdfType ==> View() == old(View()).(file := Some(files[0]))
      ensures |files| > 0 && files[0].mimeType != PdfType ==>
        View() == old(View()).(alerts := old(alerts) + [PickTypeAlert])
    {
      if |files| > 0 {
        var selected := files[0];
        if selected.mimeType == PdfType {
          file := Some(selected);
        } else {
          alerts := alerts + [PickTypeAlert];
        }
      }
    }

    /** Line 197: the remove button. */
    method RemoveFile()
      modifies this
      requires Valid()
      ensures Valid()
      ensures View() == old(View()).(file := None)
    {
      file := None;
    }

    /** Line 225: typing in the company field. */
    method SetCompany(value: string)
      modifies this
      requires Valid()
      ensures Valid()
      ensures View() == old(View()).(company := value)
    {
      company := value;
    }

    /** Line 266: typing in the job description field. */
    method SetJd(value: string)
      modifies this
      requires Valid()
      ensures Valid()
      ensures View() == old(View()).(jd := value)
    {
      jd := value;
    }

    /** Lines 47-126: `generatePDF`, with `parseReply` and `generateReply`
        standing for what the two requests resolve to. The guards run in
        order and alert without any request; past them, `disable` is set
        for the requests and cleared at the end whatever happened. */
    method GeneratePdf(parseReply: HttpReply, generateReply: HttpReply)
      modifies this
      requires Valid()
      ensures Valid()
      ensures old(disable) ==> View() == old(View())
      ensures !old(disable) && old(file).None? ==> View() == old(View()).(alerts := old(alerts) + [NoFileAlert])
      ensures !old(disable) && old(file).Some? && old(jd) == "" ==>
        View() == old(View()).(alerts := old(alerts) + [NoJdAlert])
      ensures !old(disable) && old(file).Some? && old(jd) != "" ==>
        !disable && file == old(file) && company == old(company) && jd == old(jd) &&
        dragActive == old(dragActive) &&
        match parseReply
        case NetworkError(message) =>
          fetches == old(fetches) + [ParseFetch(old(file).value, true)] &&
          alerts == old(alerts) + [ErrorPrefix + message] && downloads == old(downloads)
        case Reply(ok, body) =>
          if !ok then
            fetches == old(fetches) + [ParseFetch(old(file).value, true)] &&
            alerts == old(alerts) + [ErrorPrefix + ParseErrorMessage(body)] && downloads == old(downloads)
          else match Get(body, "data")
            case None =>
              fetches == old(fetches) + [ParseFetch(old(file).value, true)] &&
              alerts == old(alerts) + [ErrorPrefix + TypeErrorMessage] && downloads == old(downloads)
            case Some(resumeJson) =>
              fetches == old(fetches) + [ParseFetch(old(file).value, true),
                                         GenerateFetch(GenerateBody(resumeJson, old(jd), old(company)), true)] &&
              match generateReply
              case NetworkError(message) =>
                alerts == old(alerts) + [ErrorPrefix + message] && downloads == old(downloads)
              case Reply(genOk, _) =>
                if !genOk then alerts == old(alerts) + [ErrorPrefix + GenerateFailed] && downloads == old(downloads)
                else match ClientFileName(resumeJson, old(company))
                  case None => alerts == old(alerts) + [ErrorPrefix + TypeErrorMessage] && downloads == old(downloads)
                  case Some(fileName) => alerts == old(alerts) && downloads == old(downloads) + [fileName]
    {
      if disable {
        return;
      }
      if file.None? {
        alerts := alerts + [NoFileAlert];
        return;
      }
      if jd == "" {
        alerts := alerts + [NoJdAlert];
        return;
      }
      disable := true;
      var failure: Option<string> := None;
      fetches := fetches + [ParseFetch(file.value, disable)];
      match parseReply {
        case NetworkError(message) =>
          failure := Some(message);
        case Reply(ok, body) =>
          if !ok {
            failure := Some(ParseErrorMessage(body));
          } else {
            var data := Get(body, "data");
            if data.None? {
              failure := Some(TypeErrorMessage);
            } else {
              var resumeJson := data.value;
              fetches := fetches + [GenerateFetch(GenerateBody(resumeJson, jd, company), disable)];
              match generateReply {
                case NetworkError(message) =>
                  failure := Some(message);
                case Reply(genOk, _) =>
                  if !genOk {
                    failure := Some(GenerateFailed);
                  } else {
                    var fileName := ClientFileName(resumeJson, company);
                    if fileName.None? {
                      failure := Some(TypeErrorMessage);
                    } else {
                      downloads := downloads + [fileName.value];
                    }
                  }
              }
            }
          }
      }
      if failure.Some? {
        alerts := alerts + [ErrorPrefix + failure.value];
      }
      disable := false;
    }
  }
}
