/** The download-name rule shared by the server (pages/api/generate.js:445-463)
    and the browser (pages/index.js:95-113): `First_Last[_Company].pdf`,
    `First[_Company].pdf`, or `Resume.pdf` when there is no name. */
module FileNames {
  import opened Strings

  const Fallback := "Resume.pdf"
  const Extension := ".pdf"

  function CapWords(ws: seq<string>): (r: seq<string>)
    ensures |r| == |ws| && forall i :: 0 <= i < |ws| ==> r[i] == CapWord(ws[i])
  {
    seq(|ws|, i requires 0 <= i < |ws| => CapWord(ws[i]))
  }

  /** `capitalize`: split on white-space runs, capitalise each piece, join
      with `_`. The result never holds white space. */
  function Capitalize(str: string): (r: string)
    ensures NoSpace(r)
  {
    PiecesCapitalizedNoSpace(str);
    Join(CapWords(SplitWs(str)), "_")
  }

  lemma PiecesCapitalizedNoSpace(str: string)
    ensures NoSpace(Join(CapWords(SplitWs(str)), "_"))
  {
    var pieces := SplitWs(str);
    SplitPiecesNoSpace(str);
    var words := CapWords(pieces);
    forall i | 0 <= i < |words| ensures NoSpace(words[i]) {
      CapWordIdempotent(pieces[i]);
    }
    JoinNoSpace(words, "_");
  }

  /** `company ? "_" + capitalize(company) : ""`, with the empty string
      standing for every falsy company. */
  function CompanyPart(company: string): (r: string)
    ensures company == "" <==> r == ""
    ensures NoSpace(r)
  {
    if company == "" then "" else "_" + Capitalize(company)
  }

  /** The file name for a candidate name (the empty string when there is
      none) and a company. A name that trims to nothing gives the fallback;
      otherwise the first and, if there are two or more, the last of its
      white-space separated words are capitalised, middle words dropped. */
  function DownloadName(name: string, company: string): (r: string)
    ensures EndsWith(r, Extension)
    ensures |r| > |Extension|
    ensures NoSpace(r)
  {
    var n := Trim(name);
    if n == "" then FallbackShape(); Fallback
    else NamedFile(n, company)
  }

  lemma FallbackShape()
    ensures EndsWith(Fallback, Extension) && |Fallback| > |Extension| && NoSpace(Fallback)
  {
    assert Fallback == "Resume" + Extension;
    EndsWithAppend("Resume", Extension);
  }

  /** The file name for a trimmed, non-empty candidate name. */
  function NamedFile(n: string, company: string): (r: string)
    requires n != [] && IsTrimmed(n)
    ensures EndsWith(r, Extension)
    ensures |r| > |Extension|
    ensures NoSpace(r)
  {
    var parts := SplitWs(n);
    SplitTrimmedWords(n);
    assert parts[0] != [];
    WithExtension(Stem(parts), CompanyPart(company))
  }

  /** `First_Last` from the first and last of two or more words, `First`
      from a single word. */
  function Stem(parts: seq<string>): (r: string)
    requires |parts| >= 1 && parts[0] != [] && NoSpace(parts[0])
    ensures r != [] && NoSpace(r)
  {
    var first := Capitalize(parts[0]);
    SingleWordCapitalize(parts[0]);
    if |parts| >= 2 then
      var last := Capitalize(parts[|parts| - 1]);
      NoSpaceConcat(first, "_");
      NoSpaceConcat(first + "_", last);
      first + "_" + last
    else first
  }

  /** Appends the company part and the extension to a non-empty stem. */
  function WithExtension(stem: string, companyPart: string): (r: string)
    requires stem != [] && NoSpace(stem) && NoSpace(companyPart)
    ensures EndsWith(r, Extension)
    ensures |r| > |Extension|
    ensures NoSpace(r)
  {
    NoSpaceConcat(stem, companyPart);
    NoSpaceConcat(stem + companyPart, Extension);
    EndsWithAppend(stem + companyPart, Extension);
    stem + companyPart + Extension
  }

  lemma EndsWithAppend(a: string, b: string)
    ensures EndsWith(a + b, b)
  {
    assert (a + b)[|a|..] == b;
  }

  lemma NoSpaceConcat(a: string, b: string)
    requires NoSpace(a) && NoSpace(b)
    ensures NoSpace(a + b)
  {
    forall i | 0 <= i < |a + b| ensures !IsSpace((a + b)[i]) {
      if i < |a| { assert (a + b)[i] == a[i]; } else { assert (a + b)[i] == b[i - |a|]; }
    }
  }

  /** `capitalize` of one white-space-free word capitalises that word. */
  lemma SingleWordCapitalize(w: string)
    requires NoSpace(w)
    ensures Capitalize(w) == CapWord(w)
  {
    SplitWord(w);
  }

  /** For words joined by any runs of white space the name is built from
      the first and last word only. */
  lemma DownloadNameOfWords(ws: seq<string>, seps: seq<string>, company: string)
    requires |ws| >= 1 && Words(ws) && |seps| == |ws| - 1 && Separators(seps)
    ensures DownloadName(JoinSeps(ws, seps), company) ==
      (if |ws| >= 2 then CapWord(ws[0]) + "_" + CapWord(ws[|ws| - 1]) else CapWord(ws[0]))
        + CompanyPart(company) + Extension
  {
    var name := JoinSeps(ws, seps);
    JoinSepsShape(ws, seps);
    TrimmedIsFixpoint(name);
    assert Trim(name) == name && name != "";
    SplitJoinRoundTrip(ws, seps);
    assert DownloadName(name, company) == NamedFile(name, company);
    assert NamedFile(name, company) == WithExtension(Stem(ws), CompanyPart(company));
    StemOfWords(ws);
  }

  lemma StemOfWords(ws: seq<string>)
    requires |ws| >= 1 && Words(ws)
    ensures Stem(ws) == if |ws| >= 2 then CapWord(ws[0]) + "_" + CapWord(ws[|ws| - 1]) else CapWord(ws[0])
  {
    var first, last := ws[0], ws[|ws| - 1];
    StemParts(ws);
    SingleWordCapitalize(first);
    SingleWordCapitalize(last);
  }

  lemma StemParts(ws: seq<string>)
    requires |ws| >= 1 && Words(ws)
    ensures Stem(ws) == if |ws| >= 2 then Capitalize(ws[0]) + "_" + Capitalize(ws[|ws| - 1]) else Capitalize(ws[0])
  {
  }

  /** Middle names never reach the file name. */
  lemma MiddleNamesDropped(first: string, middle: seq<string>, last: string, seps: seq<string>, company: string)
    requires Words([first] + middle + [last]) && |seps| == |middle| + 1 && Separators(seps)
    ensures DownloadName(JoinSeps([first] + middle + [last], seps), company)
         == DownloadName(first + " " + last, company)
  {
    var ws := [first] + middle + [last];
    assert |ws| >= 2 && ws[0] == first && ws[|ws| - 1] == last;
    DownloadNameOfWords(ws, seps, company);
    TwoWords(first, last, company);
  }

  /** Two words separated by any run of white space (several spaces, a tab,
      a no-break space) give the same name as with one space. */
  lemma AnySeparator(first: string, sep: string, last: string, company: string)
    requires first != [] && NoSpace(first) && last != [] && NoSpace(last)
    requires sep != [] && AllSpace(sep)
    ensures DownloadName(first + sep + last, company) == DownloadName(first + " " + last, company)
  {
    var two := [first, last];
    assert Words(two) && Separators([sep]);
    assert two[1..] == [last];
    assert JoinSeps(two, [sep]) == first + sep + last;
    DownloadNameOfWords(two, [sep], company);
    TwoWords(first, last, company);
  }

  lemma TwoWords(first: string, last: string, company: string)
    requires first != [] && NoSpace(first) && last != [] && NoSpace(last)
    ensures DownloadName(first + " " + last, company)
         == CapWord(first) + "_" + CapWord(last) + CompanyPart(company) + Extension
  {
    var two := [first, last];
    assert Words(two) && Separators([" "]);
    assert two[1..] == [last];
    assert JoinSeps(two, [" "]) == first + " " + last;
    DownloadNameOfWords(two, [" "], company);
  }

  /** A missing or blank name gives `Resume.pdf`, whatever the company. */
  lemma BlankNameFallback(name: string, company: string)
    requires AllSpace(name)
    ensures DownloadName(name, company) == Fallback
  {
    TrimEmptyIffAllSpace(name);
  }

  /** A word already in capitalised form is left as it is. */
  lemma CapWordOfCapitalized(w: string)
    requires w != [] && !('a' <= w[0] <= 'z')
    requires forall i :: 1 <= i < |w| ==> !('A' <= w[i] <= 'Z')
    ensures CapWord(w) == w
  {
  }

  /** A company with leading white space splits into an empty first piece,
      which `capitalize` keeps: `" acme"` gives the part `"__Acme"`. */
  lemma CompanyWithLeadingSpace(w: string)
    requires w != [] && NoSpace(w)
    ensures CompanyPart(" " + w) == "__" + CapWord(w)
  {
    CapitalizeLeadingSpace(w);
    var c := CapWord(w);
    assert "_" + ("_" + c) == "__" + c;
  }

  lemma CapitalizeLeadingSpace(w: string)
    requires w != [] && NoSpace(w)
    ensures Capitalize(" " + w) == "_" + CapWord(w)
  {
    LeadingSpaceSplit(w);
    assert CapWords(["", w]) == ["", CapWord(w)];
    EmptyThenWordJoined(CapWord(w));
  }

  lemma LeadingSpaceSplit(w: string)
    requires w != [] && NoSpace(w)
    ensures SplitWs(" " + w) == ["", w]
  {
    var s := " " + w;
    assert Token(s) == [] by {
      assert IsSpace(s[0]);
    }
    assert TrimStart(s[1..]) == w by {
      assert s[1..] == w;
      assert !IsSpace(w[0]);
    }
    SplitWord(w);
    assert SplitWs(s) == [[]] + SplitWs(w);
  }

  /** A company with trailing white space splits into an empty last piece,
      which `capitalize` keeps: `"acme "` gives the part `"_Acme_"`. */
  lemma CompanyWithTrailingSpace(w: string)
    requires w != [] && NoSpace(w)
    ensures CompanyPart(w + " ") == "_" + CapWord(w) + "_"
  {
    var c := CapWord(w);
    assert Capitalize(w + " ") == c + "_" by { CapitalizeTrailingSpace(w); }
    assert CompanyPart(w + " ") == "_" + (c + "_");
  }

  lemma CapitalizeTrailingSpace(w: string)
    requires w != [] && NoSpace(w)
    ensures Capitalize(w + " ") == CapWord(w) + "_"
  {
    var c := CapWord(w);
    assert Capitalize(w + " ") == Join(CapWords([w, []]), "_") by { TrailingSpaceSplit(w); }
    assert CapWords([w, []]) == [c, []];
    assert Join([c, []], "_") == c + "_" by { WordThenEmptyJoined(c); }
  }

  lemma TrailingSpaceSplit(w: string)
    requires w != [] && NoSpace(w)
    ensures SplitWs(w + " ") == [w, []]
  {
    var s := w + " ";
    assert Token(s) == w by { TokenOfWordThenSpace(w, " "); }
    assert TrimStart(s[|w| + 1..]) == [] by { assert s[|w| + 1..] == []; }
    assert SplitWs(s) == [w] + SplitWs([]) by { SplitUnfold(s); }
    assert SplitWs([]) == [[]] by { SplitEmpty(); }
    WordThenEmpty(w);
  }

  lemma WordThenEmpty(w: string)
    ensures [w] + [[]] == [w, []]
  {
  }

  lemma WordThenEmptyJoined(x: string)
    ensures Join([x, []], "_") == x + "_"
  {
    var ws := [x, []];
    assert ws[1..] == [[]];
  }

  lemma EmptyThenWordJoined(x: string)
    ensures Join(["", x], "_") == "_" + x
  {
    var ws := ["", x];
    assert ws[1..] == [x];
  }

  /** `capitalize` of words joined by any runs of white space capitalises
      each word and joins them with `_`. */
  lemma CapitalizeWords(ws: seq<string>, seps: seq<string>)
    requires |ws| >= 1 && Words(ws) && |seps| == |ws| - 1 && Separators(seps)
    ensures Capitalize(JoinSeps(ws, seps)) == Join(CapWords(ws), "_")
  {
    SplitJoinRoundTrip(ws, seps);
  }

  /** Worked example: no name at all. */
  lemma ExampleNoName()
    ensures DownloadName("", "") == "Resume.pdf"
  {
    BlankNameFallback("", "");
  }
}
