/** The text extraction endpoint (pages/api/extract-text.js:12-66): the
    uploaded PDF's raw text and a name guessed from its first non-blank
    line, without any model call. */
module ExtractText {
  import opened Strings
  import opened JsValues
  import opened Uploads

  const NoUploadError := "No file uploaded"
  const ShortTextError := "Could not extract text from PDF"
  const FailureError := "Failed to extract text"
  const FallbackName := "Resume"

  predicate NoNewline(s: string) {
    forall i :: 0 <= i < |s| ==> s[i] != '\n'
  }

  /** The longest prefix without a newline. */
  function LineHead(s: string): (r: string)
    ensures |r| <= |s| && r == s[..|r|] && NoNewline(r)
    ensures |r| == |s| || s[|r|] == '\n'
  {
    if s == [] || s[0] == '\n' then []
    else
      var t := LineHead(s[1..]);
      assert s[1..][..|t|] == s[1..|t| + 1];
      [s[0]] + t
  }

  /** `s.split('\n')`: the pieces between newlines; `""` gives `[""]`. */
  function Lines(s: string): (r: seq<string>)
    ensures |r| >= 1
    decreases |s|
  {
    var head := LineHead(s);
    if |head| == |s| then [s] else [head] + Lines(s[|head| + 1..])
  }

  /** The text is one line exactly when it holds no newline. */
  lemma SingleLineIffNoNewline(s: string)
    ensures |Lines(s)| == 1 <==> NoNewline(s)
  {
    if |LineHead(s)| == |s| {
      WholeLine(s);
    } else {
      BrokenLine(s);
    }
  }

  lemma WholeLine(s: string)
    requires |LineHead(s)| == |s|
    ensures Lines(s) == [s] && NoNewline(s)
  {
    assert LineHead(s) == s;
  }

  lemma BrokenLine(s: string)
    requires |LineHead(s)| != |s|
    ensures |Lines(s)| >= 2 && !NoNewline(s)
  {
    var head := LineHead(s);
    assert s[|head|] == '\n';
  }

  /** `lines.map(l => l.trim()).filter(l => l)`: the trimmed lines that are
      not empty. */
  function KeptLines(lines: seq<string>): (r: seq<string>)
    ensures |r| <= |lines|
    ensures r != [] ==> r[0] != "" && IsTrimmed(r[0])
  {
    if lines == [] then []
    else
      var t := Trim(lines[0]);
      if t == "" then KeptLines(lines[1..]) else [t] + KeptLines(lines[1..])
  }

  predicate NonEmptyTrimmed(lines: seq<string>) {
    forall i :: 0 <= i < |lines| ==> lines[i] != "" && IsTrimmed(lines[i])
  }

  /** Every kept line is non-empty and trimmed. */
  lemma {:induction false} KeptLinesTrimmed(lines: seq<string>)
    ensures NonEmptyTrimmed(KeptLines(lines))
  {
    if lines != [] {
      KeptLinesTrimmed(lines[1..]);
      var t := Trim(lines[0]);
      if t != "" {
        ConsTrimmed(t, KeptLines(lines[1..]));
      }
    }
  }

  lemma ConsTrimmed(t: string, rest: seq<string>)
    requires t != "" && IsTrimmed(t) && NonEmptyTrimmed(rest)
    ensures NonEmptyTrimmed([t] + rest)
  {
    var r := [t] + rest;
    forall i | 0 <= i < |r| ensures r[i] != "" && IsTrimmed(r[i]) {
      if i > 0 {
        assert r[i] == rest[i - 1];
      }
    }
  }

  /** `lines[0] || "Resume"`. */
  function NameOf(text: string): (r: string)
    ensures r != "" && IsTrimmed(r)
  {
    var kept := KeptLines(Lines(text));
    if |kept| > 0 then kept[0] else FallbackName
  }

  // ---------------------------------------------------------------------
  // Properties of the split

  /** Splitting on newlines and joining with newlines gives the text back. */
  lemma {:induction false} LinesJoin(s: string)
    ensures Join(Lines(s), "\n") == s
    decreases |s|
  {
    var head := LineHead(s);
    if |head| != |s| {
      var rest := s[|head| + 1..];
      LinesJoin(rest);
      JoinCons(head, Lines(rest), "\n");
      CutAtNewline(s, |head|);
    }
  }

  lemma JoinCons(x: string, xs: seq<string>, sep: string)
    requires |xs| >= 1
    ensures Join([x] + xs, sep) == x + sep + Join(xs, sep)
  {
    assert ([x] + xs)[1..] == xs;
  }

  lemma CutAtNewline(s: string, k: nat)
    requires k < |s| && s[k] == '\n'
    ensures s == s[..k] + "\n" + s[k + 1..]
  {
  }

  /** No line holds a newline. */
  lemma {:induction false} LinesNoNewline(s: string)
    ensures forall i :: 0 <= i < |Lines(s)| ==> NoNewline(Lines(s)[i])
    decreases |s|
  {
    var head := LineHead(s);
    if |head| != |s| {
      var rest := s[|head| + 1..];
      LinesNoNewline(rest);
      assert Lines(s) == [head] + Lines(rest);
    }
  }

  /** A text that is not all white space has a line that is not. */
  lemma {:induction false} NonBlankLine(s: string, p: nat)
    requires p < |s| && !IsSpace(s[p])
    ensures exists j :: 0 <= j < |Lines(s)| && !AllSpace(Lines(s)[j])
    decreases |s|
  {
    var head := LineHead(s);
    if |head| == |s| {
      assert Lines(s)[0] == s;
    } else {
      var rest := s[|head| + 1..];
      assert Lines(s) == [head] + Lines(rest);
      if p < |head| {
        assert head[p] == s[p];
        assert !AllSpace(Lines(s)[0]);
      } else {
        assert p != |head|;
        assert rest[p - |head| - 1] == s[p];
        NonBlankLine(rest, p - |head| - 1);
        var j :| 0 <= j < |Lines(rest)| && !AllSpace(Lines(rest)[j]);
        assert Lines(s)[j + 1] == Lines(rest)[j];
      }
    }
  }

  /** A line that is not all white space survives the filter. */
  lemma {:induction false} KeptNonEmpty(lines: seq<string>, j: nat)
    requires j < |lines| && !AllSpace(lines[j])
    ensures KeptLines(lines) != []
  {
    TrimEmptyIffAllSpace(lines[0]);
    if Trim(lines[0]) == "" {
      assert lines[1..][j - 1] == lines[j];
      KeptNonEmpty(lines[1..], j - 1);
    }
  }

  /** When only blank lines come before line `j`, the name is line `j`
      trimmed. */
  lemma {:induction false} KeptHead(lines: seq<string>, j: nat)
    requires j < |lines| && Trim(lines[j]) != ""
    requires forall k :: 0 <= k < j ==> Trim(lines[k]) == ""
    ensures KeptLines(lines) != [] && KeptLines(lines)[0] == Trim(lines[j])
  {
    if j > 0 {
      assert lines[1..][j - 1] == lines[j];
      KeptHead(lines[1..], j - 1);
    }
  }

  /** A text of white space only has no line left after the filter. */
  lemma {:induction false} BlankLinesDropped(lines: seq<string>)
    requires forall k :: 0 <= k < |lines| ==> AllSpace(lines[k])
    ensures KeptLines(lines) == []
  {
    if lines != [] {
      TrimEmptyIffAllSpace(lines[0]);
      BlankLinesDropped(lines[1..]);
    }
  }

  lemma {:induction false} BlankTextBlankLines(s: string)
    requires AllSpace(s)
    ensures forall k :: 0 <= k < |Lines(s)| ==> AllSpace(Lines(s)[k])
    decreases |s|
  {
    var head := LineHead(s);
    if |head| != |s| {
      var rest := s[|head| + 1..];
      BlankTextBlankLines(rest);
      assert Lines(s) == [head] + Lines(rest);
    }
  }

  // ---------------------------------------------------------------------
  // Properties of the name

  /** The name is the first non-blank line, trimmed. */
  lemma NameIsFirstNonBlankLine(text: string, j: nat)
    requires j < |Lines(text)| && Trim(Lines(text)[j]) != ""
    requires forall k :: 0 <= k < j ==> Trim(Lines(text)[k]) == ""
    ensures NameOf(text) == Trim(Lines(text)[j])
  {
    var lines := Lines(text);
    KeptHead(lines, j);
    var kept := KeptLines(lines);
    assert |kept| > 0 && kept[0] == Trim(lines[j]);
  }

  /** A blank text is named `Resume`. */
  lemma BlankTextName(text: string)
    requires AllSpace(text)
    ensures NameOf(text) == FallbackName
  {
    BlankTextBlankLines(text);
    BlankLinesDropped(Lines(text));
  }

  /** The name never spans lines. */
  lemma NameNoNewline(text: string)
    ensures NoNewline(NameOf(text))
  {
    var lines := Lines(text);
    var kept := KeptLines(lines);
    if |kept| > 0 {
      LinesNoNewline(text);
      KeptNoNewline(lines);
    }
  }

  lemma {:induction false} KeptNoNewline(lines: seq<string>)
    requires forall k :: 0 <= k < |lines| ==> NoNewline(lines[k])
    ensures forall i :: 0 <= i < |KeptLines(lines)| ==> NoNewline(KeptLines(lines)[i])
  {
    if lines != [] {
      var rest := lines[1..];
      forall k | 0 <= k < |rest| ensures NoNewline(rest[k]) {
        assert rest[k] == lines[k + 1];
      }
      KeptNoNewline(rest);
      var t := Trim(lines[0]);
      var kept := KeptLines(lines);
      if t != "" {
        TrimKeepsNoNewline(lines[0]);
        assert kept == [t] + KeptLines(rest);
        forall i | 0 <= i < |kept| ensures NoNewline(kept[i]) {
          if i > 0 {
            assert kept[i] == KeptLines(rest)[i - 1];
          }
        }
      } else {
        assert kept == KeptLines(rest);
      }
    }
  }

  lemma TrimKeepsNoNewline(s: string)
    requires NoNewline(s)
    ensures NoNewline(Trim(s))
  {
    var a := TrimIsInfix(s);
    var t := Trim(s);
    forall j | 0 <= j < |t| ensures t[j] != '\n' {
      assert t[j] == s[a + j];
    }
  }

  /** Text that passes the length guard always yields a name of its own:
      some line survives the filter, and the name is the first of them. */
  lemma PassingTextNamed(text: string)
    requires !TooShort(text)
    ensures KeptLines(Lines(text)) != []
    ensures NameOf(text) == KeptLines(Lines(text))[0]
  {
    PassingTextNotBlank(text);
    NonBlankTextNamed(text);
  }

  /** A text with a character that is not white space has a kept line. */
  lemma NonBlankTextNamed(text: string)
    requires !AllSpace(text)
    ensures KeptLines(Lines(text)) != []
  {
    var p :| 0 <= p < |text| && !IsSpace(text[p]);
    NonBlankLine(text, p);
    var j :| 0 <= j < |Lines(text)| && !AllSpace(Lines(text)[j]);
    KeptNonEmpty(Lines(text), j);
  }

  // ---------------------------------------------------------------------
  // The handler

  function Failure(message: string): Response {
    JsonReply(500, ErrorDetailsBody(FailureError, message))
  }

  /** The body of the 200 reply: the text as extracted, untrimmed, and the
      name. */
  function SuccessBody(text: string): JsValue {
    Obj(map["success" := Bool(true), "text" := Str(text), "name" := Str(NameOf(text))])
  }

  /** The request handler. `read` stands for reading the file and extracting
      its text, `unlink` for deleting it; the ghost result `unlinked` is the
      temporary file deleted, if any. */
  method Handle(httpMethod: string, form: FormResult, read: string -> PdfResult,
                unlink: string -> UnlinkResult)
    returns (resp: Response, ghost unlinked: Option<string>)
    ensures httpMethod != "POST" ==> resp == JsonReply(405, ErrorBody("Method not allowed"))
    ensures httpMethod == "POST" && form.FormError? ==> resp == Failure(form.message)
    ensures httpMethod == "POST" && form.FormParsed? && form.resume.NoUpload? ==>
      resp == JsonReply(400, ErrorBody(NoUploadError))
    ensures httpMethod == "POST" && form.FormParsed? && form.resume == Multiple([]) ==>
      resp == Failure(TypeErrorMessage)
    // The file is deleted exactly when it was read without error and the
    // deletion did not throw.
    ensures unlinked.Some? <==>
      ReadPath(httpMethod, form).Some? && read(ReadPath(httpMethod, form).value).PdfText? &&
      unlink(ReadPath(httpMethod, form).value).Unlinked?
    ensures unlinked.Some? ==> unlinked == ReadPath(httpMethod, form)
    ensures ReadPath(httpMethod, form).Some? ==>
      match read(ReadPath(httpMethod, form).value)
      case PdfError(message) => resp == Failure(message)
      case PdfText(text) =>
        match unlink(ReadPath(httpMethod, form).value)
        case UnlinkError(message) => resp == Failure(message)
        case Unlinked =>
          if TooShort(text) then resp == JsonReply(400, ErrorBody(ShortTextError))
          else resp == JsonReply(200, SuccessBody(text))
  {
    unlinked := None;
    if httpMethod != "POST" {
      return JsonReply(405, ErrorBody("Method not allowed")), None;
    }
    if form.FormError? {
      return Failure(form.message), None;
    }
    var uploaded := form.resume;
    if uploaded.NoUpload? {
      return JsonReply(400, ErrorBody(NoUploadError)), None;
    }
    var path := FilePath(uploaded);
    if path.None? {
      return Failure(TypeErrorMessage), None;
    }
    var extracted := read(path.value);
    if extracted.PdfError? {
      return Failure(extracted.message), None;
    }
    var text := extracted.text;
    var removed := unlink(path.value);
    if removed.UnlinkError? {
      return Failure(removed.message), None;
    }
    unlinked := Some(path.value);
    if TooShort(text) {
      return JsonReply(400, ErrorBody(ShortTextError)), unlinked;
    }
    resp := JsonReply(200, SuccessBody(text));
  }
}
