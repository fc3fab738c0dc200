/** Clean-up of the text a language model returns: removal of Markdown code
    fences (pages/api/generate.js:404, pages/api/parse-resume.js:123) and the
    check that the generated document starts like an HTML document
    (pages/api/generate.js:407). */
module ModelOutput {
  import opened Strings

  const Tick: char := '`'
  const Backticks := "```"

  /** `s.replace(/<pat>\n?/g, "")` for a literal `pat`: scanning from the
      left, every occurrence of `pat`, together with one newline right
      after it, is deleted; the scan resumes after the deleted text. */
  function RemoveAll(s: string, pat: string): (r: string)
    requires pat != []
    ensures |r| <= |s|
    decreases |s|
  {
    if StartsWith(s, pat) then
      var rest := s[|pat|..];
      if rest != [] && rest[0] == '\n' then RemoveAll(rest[1..], pat) else RemoveAll(rest, pat)
    else if s == [] then []
    else [s[0]] + RemoveAll(s[1..], pat)
  }

  /** No run of three backticks anywhere in `s`. */
  predicate NoFence(s: string) {
    forall i :: 0 <= i < |s| - 2 ==> !FenceAt(s, i)
  }

  predicate FenceAt(s: string, i: int)
    requires 0 <= i < |s| - 2
  {
    s[i] == Tick && s[i + 1] == Tick && s[i + 2] == Tick
  }

  /** `s.replace(/```<lang>\n?/g, "").replace(/```\n?/g, "").trim()`. */
  function StripFences(s: string, lang: string): (r: string)
    ensures IsTrimmed(r)
    ensures NoFence(r)
  {
    var once := RemoveAll(s, Backticks + lang);
    var twice := RemoveAll(once, Backticks);
    NoFenceAfterRemoval(twice_input := once);
    TrimKeepsNoFence(twice);
    Trim(twice)
  }

  /** The clean-up of a generated HTML document: the content is trimmed
      (pages/api/generate.js:401) and then stripped of `html` fences. */
  function CleanHtml(content: string): (r: string)
    ensures IsTrimmed(r) && NoFence(r)
  {
    StripFences(Trim(content), "html")
  }

  /** The clean-up of generated JSON (pages/api/parse-resume.js:120-123). */
  function CleanJson(content: string): (r: string)
    ensures IsTrimmed(r) && NoFence(r)
  {
    StripFences(Trim(content), "json")
  }

  /** The prefix check of pages/api/generate.js:407, case-sensitive. Every
      page that passes starts with `<` followed by `!` or `h`. */
  predicate IsHtmlStart(s: string): (b: bool)
    ensures b ==> |s| >= 5 && s[0] == '<' && (s[1] == '!' || s[1] == 'h')
  {
    StartsWith(s, "<!DOCTYPE html>") || StartsWith(s, "<html")
  }

  /** How a model wraps a document in a Markdown code fence. */
  function Fenced(doc: string, lang: string): string {
    Backticks + lang + "\n" + doc + "\n" + Backticks
  }

  predicate NoTick(s: string) {
    forall i :: 0 <= i < |s| ==> s[i] != Tick
  }

  predicate TwoTicks(s: string) {
    |s| >= 2 && s[0] == Tick && s[1] == Tick
  }

  /** After the second global replacement no three backticks are left, and a
      text that does not start with two backticks does not come out starting
      with two either. */
  lemma {:induction false} NoFenceAfterRemoval(twice_input: string)
    ensures NoFence(RemoveAll(twice_input, Backticks))
    ensures !TwoTicks(twice_input) ==> !TwoTicks(RemoveAll(twice_input, Backticks))
    decreases |twice_input|
  {
    var s := twice_input;
    var r := RemoveAll(s, Backticks);
    if StartsWith(s, Backticks) {
      var rest := s[3..];
      if rest != [] && rest[0] == '\n' {
        NoFenceAfterRemoval(rest[1..]);
      } else {
        NoFenceAfterRemoval(rest);
      }
    } else if s != [] {
      var tail := RemoveAll(s[1..], Backticks);
      NoFenceAfterRemoval(s[1..]);
      if s[0] == Tick {
        assert !TwoTicks(s[1..]);
      }
      ConsKeepsNoFence(s[0], tail);
      if !TwoTicks(s) && s[0] == Tick && |s| >= 2 {
        HeadKept(s[1..]);
      }
    }
  }

  /** One character in front of a fence-free text makes no fence, unless
      it is a backtick and the text starts with two. */
  lemma ConsKeepsNoFence(c: char, tail: string)
    requires NoFence(tail) && (c == Tick ==> !TwoTicks(tail))
    ensures NoFence([c] + tail)
  {
    var r := [c] + tail;
    forall i | 0 <= i < |r| - 2
      ensures !FenceAt(r, i)
    {
      if i >= 1 {
        assert r[i] == tail[i - 1] && r[i + 1] == tail[i] && r[i + 2] == tail[i + 1];
        assert !FenceAt(tail, i - 1);
      } else {
        assert r[1] == tail[0] && r[2] == tail[1];
      }
    }
  }

  /** A text that does not start with a backtick keeps its first character. */
  lemma HeadKept(t: string)
    requires t != [] && t[0] != Tick
    ensures RemoveAll(t, Backticks) != [] && RemoveAll(t, Backticks)[0] == t[0]
  {
    assert !StartsWith(t, Backticks);
  }

  lemma TrimKeepsNoFence(s: string)
    requires NoFence(s)
    ensures NoFence(Trim(s))
  {
    var a := TrimIsInfix(s);
    InfixKeepsNoFence(s, a, a + |Trim(s)|);
  }

  lemma InfixKeepsNoFence(s: string, a: nat, b: nat)
    requires a <= b <= |s| && NoFence(s)
    ensures NoFence(s[a..b])
  {
    var r := s[a..b];
    forall i | 0 <= i < |r| - 2
      ensures !FenceAt(r, i)
    {
      assert r[i] == s[a + i] && r[i + 1] == s[a + i + 1] && r[i + 2] == s[a + i + 2];
      assert !FenceAt(s, a + i);
    }
  }

  /** A replacement whose pattern starts with a backtick leaves text without
      backticks unchanged. */
  lemma {:induction false} RemoveAllNoTick(s: string, pat: string)
    requires pat != [] && pat[0] == Tick && NoTick(s)
    ensures RemoveAll(s, pat) == s
  {
    if s != [] {
      assert !StartsWith(s, pat);
      RemoveAllNoTick(s[1..], pat);
    }
  }

  /** A backtick-free prefix passes through a replacement unchanged. */
  lemma {:induction false} RemoveAllPrefix(a: string, b: string, pat: string)
    requires pat != [] && pat[0] == Tick && NoTick(a)
    ensures RemoveAll(a + b, pat) == a + RemoveAll(b, pat)
  {
    if a != [] {
      var s := a + b;
      assert s[0] == a[0] != Tick;
      assert !StartsWith(s, pat);
      assert s[1..] == a[1..] + b;
      assert RemoveAll(s, pat) == [a[0]] + RemoveAll(a[1..] + b, pat);
      RemoveAllPrefix(a[1..], b, pat);
      assert [a[0]] + (a[1..] + RemoveAll(b, pat)) == a + RemoveAll(b, pat);
    } else {
      assert a + b == b;
    }
  }

  /** A text shorter than the pattern has no occurrence of it. */
  lemma {:induction false} RemoveAllShort(s: string, pat: string)
    requires pat != [] && |s| < |pat|
    ensures RemoveAll(s, pat) == s
  {
    if s != [] {
      RemoveAllShort(s[1..], pat);
    }
  }

  /** For a model answer without backticks the clean-up is just `trim`. */
  lemma StripFencesNoTick(s: string, lang: string)
    requires NoTick(s)
    ensures StripFences(s, lang) == Trim(s)
  {
    RemoveAllNoTick(s, Backticks + lang);
    RemoveAllNoTick(s, Backticks);
  }

  lemma TrimTrailingNewline(d: string)
    requires IsTrimmed(d)
    ensures Trim(d + "\n") == d
  {
    if d != [] {
      assert TrimStart(d + "\n") == d + "\n";
      assert (d + "\n")[..|d|] == d;
      assert TrimEnd(d + "\n") == TrimEnd(d);
    }
  }

  /** A trimmed, backtick-free document wrapped in a fence of a non-empty
      language tag comes back out of the clean-up unchanged. */
  lemma FencedRoundTrip(doc: string, lang: string)
    requires IsTrimmed(doc) && NoTick(doc) && lang != []
    ensures StripFences(Fenced(doc, lang), lang) == doc
  {
    OpeningRemoved(doc, lang);
    BodyAfterOpening(doc, lang);
    ClosingRemoved(doc);
    TrimTrailingNewline(doc);
  }

  /** The first replacement deletes the opening fence and its newline. */
  lemma OpeningRemoved(doc: string, lang: string)
    ensures RemoveAll(Fenced(doc, lang), Backticks + lang) == RemoveAll(doc + "\n" + Backticks, Backticks + lang)
  {
    var pat := Backticks + lang;
    var body := doc + "\n" + Backticks;
    var f := Fenced(doc, lang);
    assert f == pat + ("\n" + body);
    assert StartsWith(f, pat);
    assert f[|pat|..] == "\n" + body;
    assert ("\n" + body)[1..] == body;
  }

  /** ... and finds nothing more in a backtick-free document, since the
      closing fence is shorter than the pattern. */
  lemma BodyAfterOpening(doc: string, lang: string)
    requires NoTick(doc) && lang != []
    ensures RemoveAll(doc + "\n" + Backticks, Backticks + lang) == doc + "\n" + Backticks
  {
    var pat := Backticks + lang;
    assert NoTick(doc + "\n");
    RemoveAllPrefix(doc + "\n", Backticks, pat);
    RemoveAllShort(Backticks, pat);
  }

  /** The second replacement deletes the closing fence. */
  lemma ClosingRemoved(doc: string)
    requires NoTick(doc)
    ensures RemoveAll(doc + "\n" + Backticks, Backticks) == doc + "\n"
  {
    assert NoTick(doc + "\n");
    RemoveAllPrefix(doc + "\n", Backticks, Backticks);
    assert RemoveAll(Backticks, Backticks) == [];
    assert (doc + "\n") + [] == doc + "\n";
  }

  lemma FencedIsTrimmed(doc: string, lang: string)
    ensures IsTrimmed(Fenced(doc, lang))
  {
    var f := Fenced(doc, lang);
    assert f[0] == Tick;
    assert f[|f| - 1] == Tick;
    assert !IsSpace(Tick);
  }

  /** A model answer that is a fenced, trimmed, backtick-free document
      comes out of the clean-up as exactly that document. */
  lemma FencedAnswerCleaned(doc: string, lang: string)
    requires IsTrimmed(doc) && NoTick(doc) && lang != []
    ensures StripFences(Trim(Fenced(doc, lang)), lang) == doc
  {
    FencedIsTrimmed(doc, lang);
    TrimmedIsFixpoint(Fenced(doc, lang));
    FencedRoundTrip(doc, lang);
  }

  /** A fenced HTML answer is recovered exactly, so it passes the prefix
      check exactly when the document itself does. */
  lemma FencedHtmlAccepted(doc: string)
    requires IsTrimmed(doc) && NoTick(doc)
    ensures CleanHtml(Fenced(doc, "html")) == doc
    ensures IsHtmlStart(CleanHtml(Fenced(doc, "html"))) <==> IsHtmlStart(doc)
  {
    FencedAnswerCleaned(doc, "html");
  }

  /** An unfenced answer without backticks is checked as it is, up to `trim`. */
  lemma PlainHtmlChecked(content: string)
    requires NoTick(content)
    ensures CleanHtml(content) == Trim(content)
  {
    var t := Trim(content);
    var a := TrimIsInfix(content);
    assert NoTick(t) by {
      forall i | 0 <= i < |t| ensures t[i] != Tick { assert t[i] == content[a + i]; }
    }
    StripFencesNoTick(t, "html");
    TrimIdempotent(content);
  }
}
