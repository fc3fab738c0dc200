# Resume tailoring app: a verified model of its core

The application is a small Next.js site. A user uploads a resume PDF, pastes
a job description and optionally names a company. The browser page
(`pages/index.js`) sends the PDF to the parsing endpoint
(`pages/api/parse-resume.js`), which extracts the PDF text and asks a language
model to turn it into JSON. The page then posts that JSON, the job
description and the company to the generation endpoint
(`pages/api/generate.js`). That endpoint asks the model for a complete HTML
resume, strips Markdown code fences from the answer, checks that it starts
like an HTML document, renders it to PDF in a headless browser and sends the
PDF back under a name made from the first `<h1>` of the page. A third
endpoint (`pages/api/extract-text.js`) only extracts the text and guesses a
name from its first non-blank line.

This project models those four files in Dafny:

| module | file | what it holds |
|---|---|---|
| `Strings` | `strings.dfy` | JavaScript's `trim` (its exact white-space set), `split(/\s+/)`, `join`, ASCII case mapping |
| `JsValues` | `js_values.dfy` | JavaScript values, truthiness, property access (a TypeError on `undefined`/`null`), HTTP replies |
| `ModelOutput` | `model_output.dfy` | the global replace of `` ```html `` / `` ```json `` and `` ``` `` fences, the HTML start check |
| `FileNames` | `file_names.dfy` | `capitalize` and the `First_Last[_Company].pdf` rule shared by server and browser |
| `Retry` | `retry.dfy` | `callOpenAI`, the retry loop around the model request |
| `Generate` | `generate.dfy` | the generation handler, including the `<h1>` regular expression |
| `Uploads` | `uploads.dfy` | what the two upload endpoints share: the form result, the file path, the text-length guard |
| `ParseResume` | `parse_resume.dfy` | the parsing handler |
| `ExtractText` | `extract_text.dfy` | the extraction handler and its name guess |
| `HeaderValue` | `header_value.dfy` | the characters Node.js accepts in a header value, and which download names pass |
| `HomePage` | `home_page.dfy` | the page's state as a class, its event handlers and `generatePDF` |

Everything outside the program is an input to the model:

- the model's answers are a sequence of outcomes, one per request;
- the headless browser is a function from HTML to a PDF or an error;
- reading and parsing the PDF is a function from a path to text or an error;
- deleting the uploaded file is a function from a path to success or an error;
- `JSON.parse` is a function from text to a value or an error;
- the page's two `fetch` calls are the replies they resolve to.

Thrown errors are modelled as the replies the `catch` blocks produce. A
TypeError is the constant `TypeErrorMessage`, or `None` where the model
returns an `Option`.

Two facts about how the files fit together are proved rather than assumed:

- `HomePage.GenerateRequestRejected`: the page posts `{ resumeJson, jd, company }`, but the
  generation endpoint requires a truthy `resumeText`. So every request the
  page sends to it is answered with 400 "Resume text required". The rest of
  the generation handler is modelled as written, for any caller that sends
  `resumeText`.
- `HomePage.BlankNameDiverges`: the browser and the server build the download
  name by the same rule, and they agree on every name that is not blank
  (`HomePage.ClientAgreesWithServer`). A `name` made only of white space is
  truthy in the browser, trims to `""` and splits into one empty word, so
  the file is called `.pdf` or `_Company.pdf`. The server gives
  `Resume.pdf` for the same heading text.

The retry loop runs at most `retries` requests in total. With the default
of 2 that is two requests, not one request plus two retries.

## Model

| member | source | states |
|---|---|---|
| `Retry.CallOpenAI` | pages/api/generate.js:9-28 | budget ≤ 0 gives `undefined` with no request; otherwise 1..retries requests, every request before the last failed, the answer returned is the last request's, a throw happens only after `retries` failures and carries the last error; equals `FirstAnswer` |
| `Retry.FirstAnswer` | pages/api/generate.js:9-28 | an answer returned is the answer of some request within the budget; an error thrown is the last request's error |
| `Retry.FirstAnswerSkipsFailures` | pages/api/generate.js:10-12 | after a run of failures, the first answer is the one returned |
| `Retry.FirstAnswerAllFail` | pages/api/generate.js:22-24 | when every request in the budget fails, the last error is rethrown |
| `Retry.DefaultBudget` | pages/api/generate.js:9 | with the default budget of two: the first answer wins, then the second, and two failures rethrow the second error |
| `JsValues.Truthy` | pages/api/generate.js:36-37 | `undefined` and `null` are falsy; arrays and objects are truthy |
| `JsValues.Get` | pages/api/generate.js:34 | reading a property of `undefined`/`null` is a TypeError (and only then); a missing property of an object is `undefined` |
| `HeaderValue.DispositionChecksName` | pages/api/generate.js:467-470 | the `Content-Disposition` value is accepted exactly when the file name is |
| `HeaderValue.SafeCapitalize` | pages/api/generate.js:445-449 | under ASCII-only case mapping, `capitalize` keeps a text within the accepted header characters |
| `HeaderValue.SafeDownloadName` | pages/api/generate.js:451-463 | under ASCII-only case mapping, a name and a company made of accepted characters give a file name made of accepted characters |
| `HeaderValue.WideFirstNameRefused` | pages/api/generate.js:456-470 | under ASCII-only case mapping, a first name holding a character outside the accepted set keeps it in the file name, so the header is refused |
| `Generate.Guard` | pages/api/generate.js:30-37 | non-POST gives 405; a body of `undefined`/`null` gives the catch block's 500; the request passes exactly when it is a POST with truthy `resumeText` and `jd`; every early reply is 400, 405 or 500 |
| `Generate.GuardOrder` | pages/api/generate.js:36-37 | for any POST body other than `undefined`/`null`, `resumeText` is checked before `jd`, each with its own 400 message |
| `Generate.H1Capture` | pages/api/generate.js:441 | the captured heading text never spans a line terminator |
| `Generate.Candidate` | pages/api/generate.js:441-442 | the candidate name is trimmed and on one line |
| `Generate.HeadingCaptured` | pages/api/generate.js:441-442 | for `<h1 attrs>name</h1>` after any markup without an `<h1` tag, where `name` is on one line and holds no `</h1>` (inline markup allowed), the capture is exactly `name`, whatever follows |
| `Generate.MatchLayout` | pages/api/generate.js:441 | an `<h1`, its first `>` and the first `</h1>` after it on the same line, at a position before which no `<h1` matches (the leftmost successful match), delimit the capture |
| `Generate.H1CaptureSound` | pages/api/generate.js:441 | conversely, every capture is the text between such an `<h1…>` and its `</h1>`, at the first position where a match succeeds |
| `Generate.LineBreakAfterTag` | pages/api/generate.js:441 | an `<h1…>` followed by a line terminator does not match there |
| `Generate.BrokenHeadingSkipped` | pages/api/generate.js:441-451 | `<h1>\nJane Doe\n</h1>` has no match, so the page is named `Resume.pdf` |
| `Generate.NoTagNoHeading` | pages/api/generate.js:441-442 | a document without an `<h1` tag (either case) has no match and an empty candidate |
| `Generate.FileNameFor` | pages/api/generate.js:451-463 | no candidate gives `Resume.pdf`; a TypeError exactly when the candidate is present and the company is truthy but not a string; every name ends in `.pdf` and holds no white space |
| `Generate.FileNameForNamed` | pages/api/generate.js:451-463 | for a candidate and a string or falsy company, the name is the shared download name |
| `Generate.HeadingFileName` | pages/api/generate.js:441-463 | a page whose first `<h1` tag holds `First Last` (words that may carry markup but no `</h1>`) is named `First_Last_Company.pdf`, whatever markup precedes it |
| `Generate.HeadingCandidate` | pages/api/generate.js:441-442 | the candidate of a page headed by two words (inline markup allowed, no `</h1>`) is those words joined by a space |
| `Generate.InlineMarkupHeading` | pages/api/generate.js:441-463 | `<h1><b>Jane</b> Doe</h1>` is captured with its markup and named `<b>jane</b>_Doe.pdf` |
| `Generate.NoHeadingFileName` | pages/api/generate.js:451 | a page without an `<h1` tag, markup or not, is named `Resume.pdf` |
| `Generate.ValidatedPageFileName` | pages/api/generate.js:407-463 | a page opening with `<!DOCTYPE html><html><body><h1>First Last</h1>` passes the HTML check and is named `First_Last` plus the company part and `.pdf` |
| `Generate.ValidatedPageWithoutHeading` | pages/api/generate.js:407-451 | a page that passes the HTML check but has no `<h1>` is named `Resume.pdf` |
| `Generate.Outcome` | pages/api/generate.js:400-476 | a PDF is sent exactly when the model answered, the cleaned HTML starts correctly, rendering succeeded, the name was built and Node.js accepts `attachment; filename=<name>` as a header value; it carries the rendered bytes and that name; every other path is a 500 starting `PDF generation failed: `, with the model's error, `AI did not return valid HTML`, the browser's error, the TypeError of a truthy non-string company, or `Invalid character in header content ["Content-Disposition"]` |
| `Generate.SafeNamesAccepted` | pages/api/generate.js:451-470 | under ASCII-only case mapping, a candidate and a string company made of accepted header characters give a name whose header is accepted |
| `Generate.SafeHeadingSent` | pages/api/generate.js:400-471 | under ASCII-only case mapping, a valid page that renders, whose heading and company use only accepted header characters, is sent as a PDF |
| `Generate.Failure` | pages/api/generate.js:473-476 | the catch block's reply is a 500 starting `PDF generation failed: ` |
| `Generate.Handle` | pages/api/generate.js:30-477 | an early reply sends no model request; otherwise 1 to 2 requests are sent and the reply is `Outcome` of the retry loop's result; a PDF's name ends in `.pdf` |
| `ModelOutput.CleanHtml` | pages/api/generate.js:401-404 | the cleaned answer is trimmed and holds no run of three backticks |
| `ModelOutput.CleanJson` | pages/api/parse-resume.js:120-123 | the cleaned answer is trimmed and holds no run of three backticks |
| `ModelOutput.IsHtmlStart` | pages/api/generate.js:407 | a text that passes starts with `<!` or `<h` and has at least five characters |
| `ModelOutput.RemoveAll` | pages/api/generate.js:404 | a global replace of a literal never lengthens the text |
| `ModelOutput.StripFences` | pages/api/generate.js:404 | the cleaned answer is trimmed and holds no run of three backticks |
| `ModelOutput.NoFenceAfterRemoval` | pages/api/generate.js:404 | after removing every `` ``` `` no run of three backticks is left |
| `ModelOutput.StripFencesNoTick` | pages/api/generate.js:404 | text without a backtick is only trimmed |
| `ModelOutput.FencedRoundTrip` | pages/api/generate.js:404 | a trimmed, backtick-free document wrapped in a fence comes back unchanged |
| `ModelOutput.FencedAnswerCleaned` | pages/api/generate.js:401-404 | the same after the first trim of the raw answer |
| `ModelOutput.FencedHtmlAccepted` | pages/api/generate.js:401-409 | a fenced HTML answer is unwrapped, and it passes the check exactly when the document does |
| `ModelOutput.PlainHtmlChecked` | pages/api/generate.js:401-409 | an answer without backticks is checked as its trimmed text |
| `ModelOutput.FencedIsTrimmed` | pages/api/generate.js:401 | a fenced answer has no white space at either end |
| `FileNames.Capitalize` | pages/api/generate.js:445-449 | the result holds no white space |
| `FileNames.CompanyPart` | pages/api/generate.js:454 | empty exactly for the empty company; no white space |
| `FileNames.DownloadName` | pages/api/generate.js:451-463 | ends in `.pdf`, is longer than `.pdf`, holds no white space |
| `FileNames.DownloadNameOfWords` | pages/api/generate.js:451-463 | for words joined by any non-empty runs of white space: `First_Last` from the first and last word, `First` from one word, then the company part and `.pdf` |
| `FileNames.MiddleNamesDropped` | pages/api/generate.js:456-459 | middle names never change the file name, whatever white space separates the words |
| `FileNames.AnySeparator` | pages/api/generate.js:453-459 | two words separated by any run of white space (several spaces, a tab, a no-break space) give the same name as with one space |
| `FileNames.TwoWords` | pages/api/generate.js:456-459 | two words give `CapFirst_CapLast` plus the company part and `.pdf` |
| `FileNames.BlankNameFallback` | pages/api/generate.js:451-452 | a blank name gives `Resume.pdf` whatever the company |
| `FileNames.SingleWordCapitalize` | pages/api/generate.js:445-449 | `capitalize` of one word upper-cases its first letter and lower-cases the rest |
| `FileNames.CapitalizeWords` | pages/api/generate.js:445-449 | `capitalize` of words joined by any non-empty runs of white space is their capitalised forms joined by `_` |
| `FileNames.CompanyWithLeadingSpace` | pages/api/generate.js:445-453 | a company with a leading space keeps an empty first piece: `" acme"` gives `__Acme` |
| `FileNames.CompanyWithTrailingSpace` | pages/api/generate.js:445-454 | a company with a trailing space keeps an empty last piece: `"acme "` gives `_Acme_` |
| `FileNames.LeadingSpaceSplit` | pages/api/generate.js:446 | a word after one leading space splits into an empty piece and the word |
| `FileNames.TrailingSpaceSplit` | pages/api/generate.js:446 | a word followed by one trailing space splits into the word and an empty piece |
| `FileNames.ExampleNoName` | pages/api/generate.js:451 | no name and no company give `Resume.pdf` |
| `Strings.Trim` | pages/api/generate.js:401 | the result has no white space at either end and is no longer than the input |
| `Strings.TrimIsInfix` | pages/api/generate.js:401 | the trimmed text is a slice of the input with only white space around it |
| `Strings.TrimEmptyIffAllSpace` | pages/api/generate.js:451-452 | trimming gives `""` exactly for white space only |
| `Strings.TrimIdempotent` | pages/api/generate.js:453 | trimming twice is trimming once |
| `Strings.SplitJoinRoundTrip` | pages/api/generate.js:453 | splitting words joined by any non-empty runs of white space gives the words back: each run, however long and of whatever white-space characters, is one separator |
| `Strings.SplitTrimmedWords` | pages/api/generate.js:453 | a trimmed, non-empty name splits into non-empty words without white space |
| `Strings.SplitWs` | pages/api/generate.js:446-453 | splitting always gives at least one piece |
| `Strings.SplitPiecesNoSpace` | pages/api/generate.js:446 | no piece of a split holds white space |
| `Strings.CapWord` | pages/api/generate.js:447 | same length, first letter upper-cased, the rest lower-cased |
| `Strings.CapWordIdempotent` | pages/api/generate.js:447 | capitalising twice is capitalising once |
| `Uploads.TooShort` | pages/api/parse-resume.js:46 | text that passes is at least 100 characters long; the empty text never passes |
| `Uploads.FilePath` | pages/api/parse-resume.js:36 | one file gives its path; an array gives its first element's; an empty array is a TypeError |
| `Uploads.PassingTextNotBlank` | pages/api/parse-resume.js:46-48 | text that passes the guard is not blank |
| `Uploads.BlankTextTooShort` | pages/api/parse-resume.js:46-48 | white space alone never passes, however long |
| `Uploads.GuardIgnoresPadding` | pages/api/parse-resume.js:46 | surrounding white space does not change the verdict |
| `Uploads.ReadPath` | pages/api/parse-resume.js:15-39 | a file is read only for a POST whose form parsed with an upload, and then at that upload's path (the same steps as pages/api/extract-text.js:13-35) |
| `ParseResume.Handle` | pages/api/parse-resume.js:14-142 | 405, form error, missing upload (400) and empty array (TypeError) replies; the temporary file is deleted exactly when it was read and the deletion did not throw; a failed read or deletion gives its error in a 500; then the short-text 400, the model error, the `JSON.parse` error, or 200 with the parsed data; a 200 always deletes the file |
| `ParseResume.FencedJsonParsed` | pages/api/parse-resume.js:120-126 | a JSON document the model fences reaches `JSON.parse` bare |
| `ParseResume.ParsedTextShape` | pages/api/parse-resume.js:120-126 | `JSON.parse` is given trimmed text with no run of three backticks |
| `ExtractText.Lines` | pages/api/extract-text.js:49 | splitting on `\n` always gives at least one line |
| `ExtractText.SingleLineIffNoNewline` | pages/api/extract-text.js:49 | the text is one line exactly when it holds no newline |
| `ExtractText.KeptLines` | pages/api/extract-text.js:49 | no more lines are kept than there were, and the first kept line is non-empty and trimmed |
| `ExtractText.LineHead` | pages/api/extract-text.js:49 | the first line is the longest newline-free prefix |
| `ExtractText.LinesJoin` | pages/api/extract-text.js:49 | splitting on `\n` and joining with `\n` gives the text back |
| `ExtractText.LinesNoNewline` | pages/api/extract-text.js:49 | no line holds a newline |
| `ExtractText.KeptLinesTrimmed` | pages/api/extract-text.js:49 | every kept line is non-empty and trimmed |
| `ExtractText.KeptHead` | pages/api/extract-text.js:49 | the first kept line is the first non-blank line, trimmed |
| `ExtractText.BlankLinesDropped` | pages/api/extract-text.js:49 | blank lines are all filtered out |
| `ExtractText.NameOf` | pages/api/extract-text.js:49-50 | the name is non-empty and trimmed |
| `ExtractText.NameIsFirstNonBlankLine` | pages/api/extract-text.js:49-50 | the name is the first non-blank line, trimmed |
| `ExtractText.BlankTextName` | pages/api/extract-text.js:50 | a blank text is named `Resume` |
| `ExtractText.NameNoNewline` | pages/api/extract-text.js:49-50 | the name never spans lines |
| `ExtractText.PassingTextNamed` | pages/api/extract-text.js:42-50 | text that passes the guard has a kept line, and the name is that line, never `Resume` |
| `ExtractText.NonBlankTextNamed` | pages/api/extract-text.js:49-50 | text that is not all white space has a kept line |
| `ExtractText.Handle` | pages/api/extract-text.js:12-66 | 405, form error, missing upload and empty array replies; the file is deleted exactly when it was read and the deletion did not throw; a failed read or deletion gives its error in a 500; then the short-text 400 or 200 with the raw text and the name |
| `HomePage.ParseErrorMessage` | pages/index.js:64-67 | `errorData` of `undefined`/`null` is a TypeError; a falsy or missing `error` gives `Failed to parse resume`; a truthy string `error` is the message itself |
| `HomePage.ClientFileName` | pages/index.js:100-113 | a TypeError exactly when there is no resume object or its `name` is truthy but not a string; every name ends in `.pdf` |
| `HomePage.ClientAgreesWithServer` | pages/index.js:95-113 | for a string name that is not blank, the browser's name equals the server's for the trimmed name and the same company |
| `HomePage.ClientNamed` | pages/index.js:102-113 | a name that trims to something gets the shared download name |
| `HomePage.ClientFallback` | pages/index.js:101-102 | for any resume value other than `undefined`/`null`, a missing or falsy name gives `Resume.pdf` |
| `HomePage.TrimmedDownloadName` | pages/index.js:103 | trimming the name beforehand changes nothing |
| `HomePage.BlankNameDiverges` | pages/index.js:101-113 | a white-space name gives the company part plus `.pdf` in the browser but `Resume.pdf` on the server |
| `HomePage.CompanyPreview` | pages/index.js:240-254 | a preview is shown exactly when a company is typed |
| `HomePage.PreviewMatchesDownload` | pages/index.js:240-254 | the preview is the download name of a resume for `Firstname Lastname` |
| `HomePage.PairWithCompany` | pages/index.js:104-108 | two words and a company give `CapFirst_CapLast_CapCompany.pdf` |
| `HomePage.GenerateBody` | pages/index.js:76-80 | the posted body carries `resumeJson`, `jd` and `company`, and its `resumeText` is `undefined` |
| `HomePage.GenerateRequestRejected` | pages/index.js:76-80 | the page's generate request lacks `resumeText` and is always answered with 400 |
| `HomePage.Home.constructor` | pages/index.js:4-8 | no file, empty fields, not disabled, no drag; no alerts, requests or downloads |
| `HomePage.Home.HandleDrag` | pages/index.js:11-19 | `dragenter`/`dragover` set the drag flag, `dragleave` clears it, other events change nothing |
| `HomePage.Home.HandleDrop` | pages/index.js:21-34 | the drag flag is cleared; the first dropped file is kept if it is a PDF, otherwise an alert; nothing else changes; only PDFs are ever kept |
| `HomePage.Home.HandleFileChange` | pages/index.js:36-45 | the first chosen file is kept if it is a PDF, otherwise an alert; nothing else changes |
| `HomePage.Home.RemoveFile` | pages/index.js:197 | the file is cleared and nothing else changes |
| `HomePage.Home.SetCompany` | pages/index.js:225 | only the company changes |
| `HomePage.Home.SetJd` | pages/index.js:266 | only the job description changes |
| `HomePage.Home.GeneratePdf` | pages/index.js:47-126 | while disabled nothing happens; no file or no job description gives an alert and no request; otherwise both requests go out while disabled, each failure gives one `Error: ` alert, success gives one download under `ClientFileName`, and `disable` is cleared at the end |

## Left out

- The prompts, the OpenAI client, puppeteer, formidable, pdf-parse, `fs.readFileSync`/`fs.unlinkSync` and `JSON.parse` are not modelled. Their outcomes are inputs.
- Logging (`console.log`/`console.error`) and the PDF page options are not modelled. Of the response headers, only the character check on `Content-Disposition` is modelled; the constant `Content-Type` value always passes it.
- `Generate.Outcome`: the refused header's error message is Node.js's own text, taken as the constant `InvalidHeader`.
- `Retry.CallOpenAI`: the 90-second timeout race is an ordinary failed attempt (`TimeoutMessage`), because there are no clocks. A request whose outcome is not supplied counts as timed out.
- `Retry.CallOpenAI`: `retries` is an integer. A fractional budget such as `1.5` (never passed by the code) is not modelled.
- `Generate.Outcome`: a `null` message content (a TypeError on `trim`) and a reply with no choices are not distinguished from a model answer. The answer is a string.
- `ParseResume.Handle`: the same holds for the model's reply at pages/api/parse-resume.js:120. A `null` content or a reply with no choices is not modelled; the answer is a string.
- `Generate.Outcome`: when rendering fails the browser is not closed, because `close()` sits outside a `finally`. Leaked browser processes are not modelled.
- `Strings.SplitWs`: its own contract states only that there is at least one piece. What `split(/\s+/)` does with white-space runs is stated by lemmas beside it, and only for the inputs the file name meets. `SplitJoinRoundTrip` covers any non-empty runs between words, `SplitPiecesNoSpace` says no piece holds white space, `SplitTrimmedWords` covers trimmed text, and `LeadingSpaceSplit` and `TrailingSpaceSplit` cover one leading or trailing space, which gives an empty first or last piece.
- `Strings.Upper`: upper- and lower-casing cover ASCII letters only. JavaScript's full Unicode case mapping (which can change a string's length) is not modelled.
- `HeaderValue.SafeCapitalize`: holds under the ASCII-only case mapping, not under JavaScript's. `toUpperCase` maps `ÿ` (U+00FF) to U+0178 and `µ` (U+00B5) to U+039C, which the header check refuses. So a word starting with either is not kept acceptable.
- `HeaderValue.SafeDownloadName`: assumes the same ASCII-only case mapping. With JavaScript's, a heading such as `ÿves Doe` gives a file name that Node.js refuses, though the lemma calls it accepted.
- `Generate.SafeNamesAccepted`: assumes the same ASCII-only case mapping, so names starting with `ÿ` or `µ` are outside what it promises of the program.
- `Generate.SafeHeadingSent`: assumes the same ASCII-only case mapping. The program answers `<h1>ÿves Doe</h1>` with a 500, not a PDF.
- `HeaderValue.WideFirstNameRefused`: assumes the ASCII-only case mapping. JavaScript maps some characters above U+00FF into the accepted set, and the program then sends the file. Upper-cased as a first letter: `ſ` (U+017F) becomes `S`, `ı` (U+0131) becomes `I`, and the ligatures U+FB00-U+FB06 become ASCII letter pairs. Lower-cased inside a word: U+212A becomes `k` and U+212B becomes `å`. For example, `ſam Doe` is sent as `Sam_Doe.pdf`.
- `Uploads.TooShort`: the length is counted in characters, not in UTF-16 code units as JavaScript counts it.
- `HomePage.ParseErrorMessage`: `String(error)` of a truthy non-string `error` is one constant, `NonStringError`. The conversion itself is not modelled.
- `HomePage.Home.GeneratePdf`: `parseRes.json()`, `genRes.text()` and `genRes.blob()` are taken to succeed. Their own failures are not modelled.
- `HomePage.Home.GeneratePdf`: the object URL, the hidden link and its click become one entry in `downloads`. The DOM, React rendering and two overlapping `generatePDF` runs between awaits are not modelled.
- `HomePage.Home.GeneratePdf`: the button's `disabled` attribute (pages/index.js:289) is covered by the `disable` guard at the top of the method.
- The styling and layout in the rest of `pages/index.js` are not modelled.
