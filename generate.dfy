/** The PDF generation endpoint (pages/api/generate.js:30-477): request
    guards, one model call through the retry loop, clean-up and validation of
    the generated HTML, rendering, and the download name taken from the
    document's first `<h1>`. */
module Generate {
  import opened Strings
  import opened JsValues
  import opened ModelOutput
  import opened FileNames
  import opened Retry
  import opened HeaderValue

  const FailurePrefix := "PDF generation failed: "
  const InvalidHtml := "AI did not return valid HTML"

  /** The result of rendering HTML to PDF in a headless browser. */
  datatype RenderResult = Rendered(pdf: seq<bv8>) | RenderFailed(message: string)

  // ---------------------------------------------------------------------
  // Request guards

  /** The early replies, in the order the handler checks them: the method,
      then destructuring the body (a TypeError for `undefined` or `null`),
      then `resumeText`, then `jd`. `None` when the request gets through. */
  function Guard(httpMethod: string, body: JsValue): (r: Option<Response>)
    ensures httpMethod != "POST" ==> r == Some(TextReply(405, "Method not allowed"))
    ensures httpMethod == "POST" && (body.Undefined? || body.Null?) ==>
      r == Some(TextReply(500, FailurePrefix + TypeErrorMessage))
    ensures r.None? <==>
      httpMethod == "POST" && !body.Undefined? && !body.Null? &&
      Truthy(Get(body, "resumeText").value) && Truthy(Get(body, "jd").value)
    ensures r.Some? ==> r.value.TextReply? && r.value.status in {400, 405, 500}
  {
    if httpMethod != "POST" then Some(TextReply(405, "Method not allowed"))
    else match Get(body, "resumeText")
      case None => Some(TextReply(500, FailurePrefix + TypeErrorMessage))
      case Some(resumeText) =>
        if !Truthy(resumeText) then Some(TextReply(400, "Resume text required"))
        else if !Truthy(Get(body, "jd").value) then Some(TextReply(400, "Job description required"))
        else None
  }

  /** A body without a truthy `resumeText` is turned away with 400, whatever
      else it holds; a truthy `resumeText` with a falsy `jd` gets the second
      message. */
  lemma GuardOrder(body: JsValue)
    requires !body.Undefined? && !body.Null?
    ensures !Truthy(Get(body, "resumeText").value) ==>
      Guard("POST", body) == Some(TextReply(400, "Resume text required"))
    ensures Truthy(Get(body, "resumeText").value) && !Truthy(Get(body, "jd").value) ==>
      Guard("POST", body) == Some(TextReply(400, "Job description required"))
  {
  }

  // ---------------------------------------------------------------------
  // `html.match(/<h1[^>]*>(.*?)<\/h1>/i)`

  /** The characters `.` does not match. */
  predicate IsLineTerminator(c: char) {
    c == '\n' || c == '\r' || c == '\U{2028}' || c == '\U{2029}'
  }

  predicate NoLineTerminator(s: string) {
    forall i :: 0 <= i < |s| ==> !IsLineTerminator(s[i])
  }

  predicate IsH(c: char) {
    c == 'h' || c == 'H'
  }

  /** `<h1` (the `h` in either case) at position `i`. */
  predicate OpenTagAt(s: string, i: nat) {
    i + 3 <= |s| && s[i] == '<' && IsH(s[i + 1]) && s[i + 2] == '1'
  }

  /** `</h1>` (the `h` in either case) at position `j`. */
  predicate CloseTagAt(s: string, j: nat) {
    j + 5 <= |s| && s[j] == '<' && s[j + 1] == '/' && IsH(s[j + 2]) && s[j + 3] == '1' && s[j + 4] == '>'
  }

  /** `[^>]*>` from `k`: the position of the first `>`. */
  function TagEnd(s: string, k: nat): (r: Option<nat>)
    requires k <= |s|
    ensures r.Some? ==> k <= r.value < |s| && s[r.value] == '>'
    ensures r.Some? ==> forall j :: k <= j < r.value ==> s[j] != '>'
    ensures r.None? ==> forall j :: k <= j < |s| ==> s[j] != '>'
    decreases |s| - k
  {
    if k == |s| then None
    else if s[k] == '>' then Some(k)
    else TagEnd(s, k + 1)
  }

  /** `(.*?)<\/h1>` from `k`: the first position of a closing tag reached
      without crossing a line terminator. */
  function LazyEnd(s: string, k: nat): (r: Option<nat>)
    requires k <= |s|
    ensures r.Some? ==> k <= r.value && CloseTagAt(s, r.value)
    ensures r.Some? ==> forall j :: k <= j < r.value ==> !IsLineTerminator(s[j]) && !CloseTagAt(s, j)
    decreases |s| - k
  {
    if CloseTagAt(s, k) then Some(k)
    else if k == |s| || IsLineTerminator(s[k]) then None
    else LazyEnd(s, k + 1)
  }

  /** The capture of a match starting at position `i`, if one does. */
  function MatchAt(s: string, i: nat): (r: Option<string>)
    requires i <= |s|
    ensures r.Some? ==> OpenTagAt(s, i) && NoLineTerminator(r.value)
  {
    if !OpenTagAt(s, i) then None
    else match TagEnd(s, i + 3)
      case None => None
      case Some(g) =>
        match LazyEnd(s, g + 1)
        case None => None
        case Some(e) =>
          SliceNoLineTerminator(s, g + 1, e);
          Some(s[g + 1..e])
  }

  lemma SliceNoLineTerminator(s: string, a: nat, b: nat)
    requires a <= b <= |s|
    requires forall j :: a <= j < b ==> !IsLineTerminator(s[j]) && !CloseTagAt(s, j)
    ensures NoLineTerminator(s[a..b])
  {
    forall j | 0 <= j < b - a ensures !IsLineTerminator(s[a..b][j]) {
      assert s[a..b][j] == s[a + j];
    }
  }

  /** The leftmost match at or after position `i`. */
  function FirstMatchFrom(s: string, i: nat): (r: Option<string>)
    requires i <= |s|
    ensures r.Some? ==> NoLineTerminator(r.value)
    decreases |s| - i
  {
    if MatchAt(s, i).Some? then MatchAt(s, i)
    else if i == |s| then None
    else FirstMatchFrom(s, i + 1)
  }

  /** The first capture group of the `<h1>` match, if any. */
  function H1Capture(html: string): (r: Option<string>)
    ensures r.Some? ==> NoLineTerminator(r.value)
  {
    FirstMatchFrom(html, 0)
  }

  /** `nameMatch ? nameMatch[1].trim() : null`, with the empty string for
      `null` (both are falsy and lead to the same file name). */
  function Candidate(html: string): (r: string)
    ensures IsTrimmed(r) && NoLineTerminator(r)
  {
    match H1Capture(html)
    case None => ""
    case Some(c) =>
      TrimKeepsNoLineTerminator(c);
      Trim(c)
  }

  lemma TrimKeepsNoLineTerminator(s: string)
    requires NoLineTerminator(s)
    ensures NoLineTerminator(Trim(s))
  {
    var a := TrimIsInfix(s);
    var t := Trim(s);
    forall j | 0 <= j < |t| ensures !IsLineTerminator(t[j]) {
      assert t[j] == s[a + j];
    }
  }

  /** No `</h1>` (the `h` in either case) lies inside `s`. Other markup,
      `<span>` or `<h1>` included, is allowed. */
  predicate NoCloseTag(s: string) {
    forall j :: 0 <= j < |s| ==> !CloseTagAt(s, j)
  }

  /** No `<h1` (the `h` in either case) starts anywhere in `s`. Other
      markup is allowed. */
  predicate NoHeadingTag(s: string) {
    forall j :: 0 <= j < |s| ==> !OpenTagAt(s, j)
  }

  /** A document without `<h1` has no heading, so the name is empty. */
  lemma NoTagNoHeading(html: string)
    requires NoHeadingTag(html)
    ensures H1Capture(html) == None && Candidate(html) == ""
  {
    forall j | 0 <= j < |html| ensures MatchAt(html, j).None? {
      assert !OpenTagAt(html, j);
    }
    FirstMatchSkips(html, 0, |html|);
  }

  /** No match starts in `[i, m)`, so the search from `i` is the search
      from `m`. */
  lemma {:induction false} FirstMatchSkips(s: string, i: nat, m: nat)
    requires i <= m <= |s|
    requires forall j :: i <= j < m ==> MatchAt(s, j).None?
    ensures FirstMatchFrom(s, i) == FirstMatchFrom(s, m)
    decreases m - i
  {
    if i < m {
      FirstMatchSkips(s, i + 1, m);
    }
  }

  lemma {:induction false} TagEndAt(s: string, k: nat, g: nat)
    requires k <= g < |s| && s[g] == '>'
    requires forall j :: k <= j < g ==> s[j] != '>'
    ensures TagEnd(s, k) == Some(g)
    decreases g - k
  {
    if k < g {
      TagEndAt(s, k + 1, g);
    }
  }

  lemma {:induction false} LazyEndAt(s: string, k: nat, e: nat)
    requires k <= e && CloseTagAt(s, e)
    requires forall j :: k <= j < e ==> !IsLineTerminator(s[j]) && !CloseTagAt(s, j)
    ensures LazyEnd(s, k) == Some(e)
    decreases e - k
  {
    if k < e {
      LazyEndAt(s, k + 1, e);
    }
  }

  /** A heading `<h1 attrs>name</h1>` after markup without `<h1` is found,
      and its content is captured exactly, whatever follows it. */
  lemma HeadingCaptured(before: string, attrs: string, name: string, after: string)
    requires NoHeadingTag(before) && NoCloseTag(name) && NoLineTerminator(name)
    requires forall i :: 0 <= i < |attrs| ==> attrs[i] != '>'
    ensures H1Capture(before + "<h1" + attrs + ">" + name + "</h1>" + after) == Some(name)
  {
    var s := before + "<h1" + attrs + ">" + name + "</h1>" + after;
    var p := |before|;
    var g := p + 3 + |attrs|;
    var e := g + 1 + |name|;
    assert s[..p] == before;
    assert s[p..p + 3] == "<h1";
    assert s[p + 3..g] == attrs;
    assert s[g] == '>';
    assert s[g + 1..e] == name;
    assert s[e..e + 5] == "</h1>";
    assert CloseTagAt(s, e);
    forall j | 0 <= j < p ensures !OpenTagAt(s, j) && MatchAt(s, j).None? {
      if j + 3 <= p {
        assert s[j] == before[j] && s[j + 1] == before[j + 1] && s[j + 2] == before[j + 2];
        assert !OpenTagAt(before, j);
      } else {
        assert s[p] == '<';
      }
    }
    forall j | p + 3 <= j < g ensures s[j] != '>' {
      assert s[j] == attrs[j - (p + 3)];
    }
    forall j | g + 1 <= j < e ensures !IsLineTerminator(s[j]) && !CloseTagAt(s, j) {
      var k := j - (g + 1);
      assert s[j] == name[k];
      if j + 5 <= e {
        assert s[j + 1] == name[k + 1] && s[j + 2] == name[k + 2] && s[j + 3] == name[k + 3] && s[j + 4] == name[k + 4];
        assert !CloseTagAt(name, k);
      } else {
        assert s[e] == '<';
      }
    }
    MatchLayout(s, p, g, e);
  }

  /** One match of `/<h1[^>]*>(.*?)<\/h1>/i` at `p`: the `<h1` at `p`, the
      first `>` after it at `g`, and the first `</h1>` after that at `e`,
      with no line terminator in between. */
  predicate Layout(s: string, p: nat, g: nat, e: nat) {
    p + 3 <= g < e && OpenTagAt(s, p) && g < |s| && s[g] == '>' && CloseTagAt(s, e) &&
    (forall j :: p + 3 <= j < g ==> s[j] != '>') &&
    (forall j :: g + 1 <= j < e ==> !IsLineTerminator(s[j]) && !CloseTagAt(s, j))
  }

  /** A match at `p` that no earlier position matches (the leftmost
      successful match, even past an `<h1` that fails) gives the capture:
      what lies between `g` and `e`. */
  lemma MatchLayout(s: string, p: nat, g: nat, e: nat)
    requires Layout(s, p, g, e)
    requires forall j :: 0 <= j < p ==> MatchAt(s, j).None?
    ensures H1Capture(s) == Some(s[g + 1..e])
  {
    FirstMatchSkips(s, 0, p);
    TagEndAt(s, p + 3, g);
    LazyEndAt(s, g + 1, e);
  }

  /** Conversely, every capture is the text of a match laid out as above,
      at a position where the search first succeeds. */
  lemma H1CaptureSound(s: string)
    ensures H1Capture(s).Some? ==>
      exists p: nat, g: nat, e: nat :: Layout(s, p, g, e) && (forall j :: 0 <= j < p ==> MatchAt(s, j).None?) &&
        H1Capture(s).value == s[g + 1..e]
  {
    if H1Capture(s).Some? {
      var p := FirstMatchLeftmost(s, 0);
      var g, e := MatchAtLayout(s, p);
    }
  }

  /** The search from `i` succeeds at the first position that matches. */
  lemma {:induction false} FirstMatchLeftmost(s: string, i: nat) returns (p: nat)
    requires i <= |s| && FirstMatchFrom(s, i).Some?
    ensures i <= p <= |s| && MatchAt(s, p) == FirstMatchFrom(s, i)
    ensures forall j :: i <= j < p ==> MatchAt(s, j).None?
    decreases |s| - i
  {
    if MatchAt(s, i).Some? {
      p := i;
    } else {
      p := FirstMatchLeftmost(s, i + 1);
    }
  }

  /** A match at `p` is laid out as `Layout` says. */
  lemma MatchAtLayout(s: string, p: nat) returns (g: nat, e: nat)
    requires p <= |s| && MatchAt(s, p).Some?
    ensures Layout(s, p, g, e) && MatchAt(s, p).value == s[g + 1..e]
  {
    g := TagEnd(s, p + 3).value;
    e := LazyEnd(s, g + 1).value;
  }

  /** An `<h1>` whose text starts on a new line does not match there: the
      lazy group cannot cross the line terminator. */
  lemma LineBreakAfterTag(s: string, p: nat, g: nat)
    requires OpenTagAt(s, p) && p + 3 <= g && g + 1 < |s| && s[g] == '>'
    requires forall j :: p + 3 <= j < g ==> s[j] != '>'
    requires IsLineTerminator(s[g + 1])
    ensures MatchAt(s, p).None?
  {
    TagEndAt(s, p + 3, g);
    assert !CloseTagAt(s, g + 1);
  }

  /** So a heading written over several lines gives no name: the page is
      named `Resume.pdf`. */
  lemma BrokenHeadingSkipped(company: JsValue)
    ensures H1Capture("<h1>\nJane Doe\n</h1>") == None
    ensures FileNameFor(Candidate("<h1>\nJane Doe\n</h1>"), company) == Some(Fallback)
  {
    var s := "<h1>\nJane Doe\n</h1>";
    assert s == ['<', 'h', '1', '>', '\n', 'J', 'a', 'n', 'e', ' ', 'D', 'o', 'e', '\n', '<', '/', 'h', '1', '>'];
    LineBreakAfterTag(s, 0, 3);
    forall j | 1 <= j < |s| ensures MatchAt(s, j).None? {
      assert j != 14 ==> s[j] != '<';
      assert !OpenTagAt(s, j);
    }
    FirstMatchSkips(s, 0, |s|);
  }

  // ---------------------------------------------------------------------
  // The download name

  /** Lines 451-463: the server's file name for the trimmed heading text
      and the request's `company`; `None` where `capitalize(company)` throws
      a TypeError (a truthy company that is not a string has no `split`). */
  function FileNameFor(candidate: string, company: JsValue): (r: Option<string>)
    ensures r.None? <==> candidate != "" && Truthy(company) && !company.Str?
    ensures r.Some? ==> EndsWith(r.value, Extension) && NoSpace(r.value)
    ensures candidate == "" ==> r == Some(Fallback)
  {
    if candidate == "" then FallbackShape(); Some(Fallback)
    else if !Truthy(company) then Some(DownloadName(candidate, ""))
    else if company.Str? then Some(DownloadName(candidate, company.s))
    else None
  }

  /** For a non-empty candidate and a string or falsy company the name is
      the download name of the two. */
  lemma FileNameForNamed(candidate: string, company: JsValue)
    requires candidate != "" && (company.Str? || !Truthy(company))
    ensures FileNameFor(candidate, company) == Some(DownloadName(candidate, if company.Str? then company.s else ""))
  {
  }

  /** A page whose first heading holds a first and a last name is named
      after them and the company. */
  lemma HeadingFileName(before: string, first: string, last: string, after: string, company: string)
    requires NoHeadingTag(before) && first != [] && last != []
    requires NoSpace(first) && NoCloseTag(first) && NoSpace(last) && NoCloseTag(last)
    ensures FileNameFor(Candidate(before + "<h1>" + (first + " " + last) + "</h1>" + after), Str(company))
         == Some(CapWord(first) + "_" + CapWord(last) + CompanyPart(company) + Extension)
  {
    var name := first + " " + last;
    HeadingCandidate(before, name, after, first, last);
    FileNameForNamed(name, Str(company));
    TwoWords(first, last, company);
  }

  lemma HeadingCandidate(before: string, name: string, after: string, first: string, last: string)
    requires NoHeadingTag(before) && first != [] && last != []
    requires NoSpace(first) && NoCloseTag(first) && NoSpace(last) && NoCloseTag(last)
    requires name == first + " " + last
    ensures Candidate(before + "<h1>" + name + "</h1>" + after) == name
  {
    assert NoLineTerminator(name) by {
      forall i | 0 <= i < |name| ensures !IsLineTerminator(name[i]) {
        if i < |first| { assert name[i] == first[i]; }
        else if i > |first| { assert name[i] == last[i - |first| - 1]; }
      }
    }
    PairNoCloseTag(first, last);
    HeadingCaptured(before, "", name, after);
    assert before + "<h1" + "" + ">" + name == before + "<h1>" + name;
    assert name[0] == first[0] && name[|name| - 1] == last[|last| - 1];
    TrimmedIsFixpoint(name);
  }

  /** `</h1>` holds no space, so it cannot straddle the space between two
      words. */
  lemma PairNoCloseTag(first: string, last: string)
    requires NoCloseTag(first) && NoCloseTag(last)
    ensures NoCloseTag(first + " " + last)
  {
    var name := first + " " + last;
    var n := |first|;
    forall j | 0 <= j < |name| ensures !CloseTagAt(name, j) {
      if j + 5 <= n {
        assert name[j..j + 5] == first[j..j + 5];
        assert !CloseTagAt(first, j);
      } else if j > n {
        var k := j - n - 1;
        if j + 5 <= |name| {
          assert name[j..j + 5] == last[k..k + 5];
          assert !CloseTagAt(last, k);
        }
      } else {
        assert name[n] == ' ';
      }
    }
  }

  /** A heading with inline markup is captured with its markup, and the
      markup ends up in the file name. */
  lemma InlineMarkupHeading()
    ensures Candidate("<h1><b>Jane</b> Doe</h1>") == "<b>Jane</b> Doe"
    ensures FileNameFor(Candidate("<h1><b>Jane</b> Doe</h1>"), Str("")) == Some("<b>jane</b>_Doe.pdf")
  {
    BoldCandidate();
    BoldFileName();
  }

  lemma BoldCandidate()
    ensures Candidate("<h1><b>Jane</b> Doe</h1>") == "<b>Jane</b> Doe"
  {
    var first, last := "<b>Jane</b>", "Doe";
    var name := first + " " + last;
    BoldNoSpace();
    BoldNoCloseTag();
    assert name == "<b>Jane</b> Doe";
    assert "" + "<h1>" + name + "</h1>" + "" == "<h1><b>Jane</b> Doe</h1>";
    HeadingCandidate("", name, "", first, last);
  }

  lemma BoldFileName()
    ensures FileNameFor("<b>Jane</b> Doe", Str("")) == Some("<b>jane</b>_Doe.pdf")
  {
    BoldDownloadName();
    FileNameForNamed("<b>Jane</b> Doe", Str(""));
  }

  lemma BoldDownloadName()
    ensures DownloadName("<b>Jane</b> Doe", "") == "<b>jane</b>_Doe.pdf"
  {
    var first, last := "<b>Jane</b>", "Doe";
    BoldNoSpace();
    assert first + " " + last == "<b>Jane</b> Doe";
    TwoWords(first, last, "");
    BoldCapWord();
    DoeCapWord();
    BoldName();
  }

  lemma DoeCapWord()
    ensures CapWord("Doe") == "Doe"
  {
    var r := CapWord("Doe");
    assert r[1] == Lower('o') && r[2] == Lower('e');
  }

  lemma BoldNoSpace()
    ensures NoSpace("<b>Jane</b>")
  {
    var w := "<b>Jane</b>";
    assert w == ['<', 'b', '>', 'J', 'a', 'n', 'e', '<', '/', 'b', '>'];
  }

  lemma BoldNoCloseTag()
    ensures NoCloseTag("<b>Jane</b>")
  {
    var w := "<b>Jane</b>";
    assert w == ['<', 'b', '>', 'J', 'a', 'n', 'e', '<', '/', 'b', '>'];
    forall j | 0 <= j < |w| ensures !CloseTagAt(w, j) {
      if j < 7 {
        assert j + 5 > |w| || w[j + 1] != '/';
      }
    }
  }

  lemma BoldCapWord()
    ensures CapWord("<b>Jane</b>") == "<b>jane</b>"
  {
    var w := "<b>Jane</b>";
    var t := "<b>jane</b>";
    assert w == ['<', 'b', '>', 'J', 'a', 'n', 'e', '<', '/', 'b', '>'];
    assert t == ['<', 'b', '>', 'j', 'a', 'n', 'e', '<', '/', 'b', '>'];
    var r := CapWord(w);
    forall i | 0 <= i < |w| ensures r[i] == t[i] {
      if i == 3 {
        assert r[3] == Lower('J');
      } else if i > 0 {
        assert r[i] == Lower(w[i]) && w[i] == t[i];
      }
    }
  }

  lemma BoldName()
    ensures "<b>jane</b>" + "_" + "Doe" + CompanyPart("") + Extension == "<b>jane</b>_Doe.pdf"
  {
  }

  /** A page without a heading is named `Resume.pdf`. */
  lemma NoHeadingFileName(html: string, company: JsValue)
    requires NoHeadingTag(html)
    ensures FileNameFor(Candidate(html), company) == Some(Fallback)
  {
    NoTagNoHeading(html);
  }

  /** The opening of a typical generated page. */
  const PageOpening := "<!DOCTYPE html><html><body>"

  /** A page that passes the HTML check and is headed `First Last` is named
      after them and the company. */
  lemma ValidatedPageFileName(first: string, last: string, after: string, company: string)
    requires first != [] && last != []
    requires NoSpace(first) && NoCloseTag(first) && NoSpace(last) && NoCloseTag(last)
    ensures IsHtmlStart(PageOpening + "<h1>" + (first + " " + last) + "</h1>" + after)
    ensures FileNameFor(Candidate(PageOpening + "<h1>" + (first + " " + last) + "</h1>" + after), Str(company))
         == Some(CapWord(first) + "_" + CapWord(last) + CompanyPart(company) + Extension)
  {
    var page := PageOpening + "<h1>" + (first + " " + last) + "</h1>" + after;
    assert page[..|PageOpening|] == PageOpening;
    assert page[..15] == "<!DOCTYPE html>";
    HeadingFileName(PageOpening, first, last, after, company);
  }

  /** A page that passes the HTML check but has no `<h1>` is named
      `Resume.pdf`. */
  lemma ValidatedPageWithoutHeading(company: JsValue)
    ensures IsHtmlStart(PlainPage)
    ensures FileNameFor(Candidate(PlainPage), company) == Some(Fallback)
  {
    assert PlainPage[..5] == "<html";
    NoHeadingFileName(PlainPage, company);
  }

  const PlainPage := "<html><body><p>x</p></body></html>"

  // ---------------------------------------------------------------------
  // The handler

  /** What the handler replies once the model call is over: `answer` is
      its result, `company` the request's `company` field. Every failure on
      the way — the model call, the HTML check, the browser, the file
      name, the header carrying the file name — ends in the `catch` block's
      500 reply. */
  function Outcome(answer: CallResult, render: string -> RenderResult, company: JsValue): (r: Response)
    requires !answer.NoResult?
    ensures r.PdfReply? <==>
      answer.Returned? && IsHtmlStart(CleanHtml(answer.content)) &&
      render(CleanHtml(answer.content)).Rendered? &&
      FileNameFor(Candidate(CleanHtml(answer.content)), company).Some? &&
      HeaderSafe(DispositionPrefix + FileNameFor(Candidate(CleanHtml(answer.content)), company).value)
    ensures r.PdfReply? ==>
      r.pdf == render(CleanHtml(answer.content)).pdf &&
      Some(r.fileName) == FileNameFor(Candidate(CleanHtml(answer.content)), company) &&
      EndsWith(r.fileName, Extension) && NoSpace(r.fileName) && HeaderSafe(DispositionPrefix + r.fileName)
    ensures !r.PdfReply? ==> r.TextReply? && r.status == 500 && StartsWith(r.text, FailurePrefix)
    ensures answer.Threw? ==> r == TextReply(500, FailurePrefix + answer.message)
    ensures answer.Returned? && !IsHtmlStart(CleanHtml(answer.content)) ==>
      r == TextReply(500, FailurePrefix + InvalidHtml)
    ensures (answer.Returned? && IsHtmlStart(CleanHtml(answer.content)) &&
             render(CleanHtml(answer.content)).RenderFailed?) ==>
      r == TextReply(500, FailurePrefix + render(CleanHtml(answer.content)).message)
    ensures (answer.Returned? && IsHtmlStart(CleanHtml(answer.content)) &&
             render(CleanHtml(answer.content)).Rendered? &&
             FileNameFor(Candidate(CleanHtml(answer.content)), company).None?) ==>
      r == TextReply(500, FailurePrefix + TypeErrorMessage)
    ensures (answer.Returned? && IsHtmlStart(CleanHtml(answer.content)) &&
             render(CleanHtml(answer.content)).Rendered? &&
             FileNameFor(Candidate(CleanHtml(answer.content)), company).Some? &&
             !HeaderSafe(DispositionPrefix + FileNameFor(Candidate(CleanHtml(answer.content)), company).value)) ==>
      r == TextReply(500, FailurePrefix + InvalidHeader)
  {
    if answer.Threw? then Failure(answer.message)
    else
      var html := CleanHtml(answer.content);
      if !IsHtmlStart(html) then Failure(InvalidHtml)
      else match render(html)
        case RenderFailed(message) => Failure(message)
        case Rendered(pdf) =>
          match FileNameFor(Candidate(html), company)
          case None => Failure(TypeErrorMessage)
          case Some(fileName) =>
            if !HeaderSafe(DispositionPrefix + fileName) then Failure(InvalidHeader)
            else PdfReply(pdf, fileName)
  }

  /** With a heading and a company of accepted header characters the name
      can always be sent. */
  lemma SafeNamesAccepted(candidate: string, company: JsValue)
    requires HeaderSafe(candidate)
    requires company.Str? ==> HeaderSafe(company.s)
    requires company.Str? || !Truthy(company)
    ensures FileNameFor(candidate, company).Some?
    ensures HeaderSafe(DispositionPrefix + FileNameFor(candidate, company).value)
  {
    var name := FileNameFor(candidate, company).value;
    if candidate == "" {
      assert HeaderSafe(Fallback);
    } else {
      FileNameForNamed(candidate, company);
      SafeDownloadName(candidate, if company.Str? then company.s else "");
    }
    DispositionChecksName(name);
  }

  /** A page that passes the check and renders is sent as a PDF whenever its
      heading and the company hold only accepted header characters. */
  lemma SafeHeadingSent(content: string, render: string -> RenderResult, company: JsValue)
    requires IsHtmlStart(CleanHtml(content)) && render(CleanHtml(content)).Rendered?
    requires HeaderSafe(Candidate(CleanHtml(content)))
    requires company.Str? ==> HeaderSafe(company.s)
    requires company.Str? || !Truthy(company)
    ensures Outcome(Returned(content), render, company).PdfReply?
  {
    SafeNamesAccepted(Candidate(CleanHtml(content)), company);
  }

  /** The `catch` block's reply. */
  function Failure(message: string): (r: Response)
    ensures r.TextReply? && r.status == 500 && StartsWith(r.text, FailurePrefix)
  {
    assert (FailurePrefix + message)[..|FailurePrefix|] == FailurePrefix;
    TextReply(500, FailurePrefix + message)
  }

  /** The request handler. `outcomes` are the model's answers to successive
      requests and `render` stands for the headless browser; `made` is the
      number of model requests sent. */
  method Handle(httpMethod: string, body: JsValue, outcomes: seq<Attempt>, render: string -> RenderResult)
    returns (resp: Response, made: nat)
    ensures Guard(httpMethod, body).Some? ==> resp == Guard(httpMethod, body).value && made == 0
    ensures Guard(httpMethod, body).None? ==>
      1 <= made <= DefaultRetries &&
      resp == Outcome(FirstAnswer(outcomes, DefaultRetries, 0), render, Get(body, "company").value)
    ensures resp.PdfReply? ==> EndsWith(resp.fileName, Extension)
  {
    made := 0;
    var guard := Guard(httpMethod, body);
    if guard.Some? {
      return guard.value, 0;
    }
    var answer;
    answer, made := CallOpenAI(outcomes, DefaultRetries);
    resp := Outcome(answer, render, Get(body, "company").value);
  }
}
