/** The check Node.js makes on a header value before `res.setHeader`
    (used at pages/api/generate.js:467-470) accepts it: every character must
    be a tab, printable ASCII or in 0x80-0xFF, otherwise the call throws.
    The lemmas show which download names pass. */
module HeaderValue {
  import opened Strings
  import opened FileNames

  /** A character Node.js accepts in a header value. */
  predicate HeaderChar(c: char) {
    c == '\t' || (' ' <= c <= '~') || ('\U{80}' <= c <= '\U{FF}')
  }

  predicate HeaderSafe(s: string) {
    forall i :: 0 <= i < |s| ==> HeaderChar(s[i])
  }

  /** The `Content-Disposition` value is this prefix followed by the file
      name. */
  const DispositionPrefix := "attachment; filename="

  /** The message of the error `setHeader` throws for a value it refuses. */
  const InvalidHeader := "Invalid character in header content [\"Content-Disposition\"]"

  lemma HeaderSafeConcat(a: string, b: string)
    ensures HeaderSafe(a + b) <==> HeaderSafe(a) && HeaderSafe(b)
  {
    if HeaderSafe(a + b) {
      forall i | 0 <= i < |a| ensures HeaderChar(a[i]) {
        assert (a + b)[i] == a[i];
      }
      forall i | 0 <= i < |b| ensures HeaderChar(b[i]) {
        assert (a + b)[|a| + i] == b[i];
      }
    }
    if HeaderSafe(a) && HeaderSafe(b) {
      forall i | 0 <= i < |a + b| ensures HeaderChar((a + b)[i]) {
        if i < |a| { assert (a + b)[i] == a[i]; } else { assert (a + b)[i] == b[i - |a|]; }
      }
    }
  }

  /** The fixed prefix is accepted, so the header is refused exactly when
      the file name holds a character outside the accepted set. */
  lemma DispositionChecksName(name: string)
    ensures HeaderSafe(DispositionPrefix + name) <==> HeaderSafe(name)
  {
    assert HeaderSafe(DispositionPrefix);
    HeaderSafeConcat(DispositionPrefix, name);
  }

  /** Every string in `ws` holds only accepted characters. */
  predicate AllSafe(ws: seq<string>) {
    forall i :: 0 <= i < |ws| ==> HeaderSafe(ws[i])
  }

  lemma SafeSlice(s: string, a: nat, b: nat)
    requires a <= b <= |s| && HeaderSafe(s)
    ensures HeaderSafe(s[a..b])
  {
    forall i | 0 <= i < b - a ensures HeaderChar(s[a..b][i]) {
      assert s[a..b][i] == s[a + i];
    }
  }

  /** Splitting on white space keeps only characters of the input. */
  lemma {:induction false} SafePieces(s: string)
    requires HeaderSafe(s)
    ensures AllSafe(SplitWs(s))
    decreases |s|
  {
    var tok := Token(s);
    if |tok| != |s| {
      var t := TrimStart(s[|tok| + 1..]);
      SafeRest(s, |tok| + 1, t);
      SafePieces(t);
      SafeSlice(s, 0, |tok|);
      SplitUnfold(s);
      SafeCons(tok, SplitWs(t));
    }
  }

  /** What is left after trimming the start of a suffix keeps only
      characters of the input. */
  lemma SafeRest(s: string, k: nat, t: string)
    requires k <= |s| && HeaderSafe(s) && t == TrimStart(s[k..])
    ensures HeaderSafe(t)
  {
    var rest := s[k..];
    SafeSlice(s, k, |s|);
    SafeSlice(rest, |rest| - |t|, |rest|);
  }

  lemma SafeCons(w: string, ws: seq<string>)
    requires HeaderSafe(w) && AllSafe(ws)
    ensures AllSafe([w] + ws)
  {
    forall i | 0 <= i < |[w] + ws| ensures HeaderSafe(([w] + ws)[i]) {
      if i > 0 { assert ([w] + ws)[i] == ws[i - 1]; }
    }
  }

  /** ASCII case mapping keeps a character accepted. */
  lemma SafeCapWord(w: string)
    requires HeaderSafe(w)
    ensures HeaderSafe(CapWord(w))
  {
    var r := CapWord(w);
    forall i | 0 <= i < |r| ensures HeaderChar(r[i]) {
      assert HeaderChar(w[i]);
    }
  }

  lemma {:induction false} SafeJoin(ws: seq<string>, sep: string)
    requires HeaderSafe(sep)
    requires AllSafe(ws)
    ensures HeaderSafe(Join(ws, sep))
  {
    if |ws| >= 2 {
      SafeJoin(ws[1..], sep);
      HeaderSafeConcat(ws[0], sep);
      HeaderSafeConcat(ws[0] + sep, Join(ws[1..], sep));
    }
  }

  lemma SafeCapitalize(x: string)
    requires HeaderSafe(x)
    ensures HeaderSafe(Capitalize(x))
  {
    var pieces := SplitWs(x);
    SafePieces(x);
    var words := CapWords(pieces);
    forall i | 0 <= i < |words| ensures HeaderSafe(words[i]) {
      SafeCapWord(pieces[i]);
    }
    assert HeaderSafe("_");
    SafeJoin(words, "_");
  }

  lemma SafeCompanyPart(company: string)
    requires HeaderSafe(company)
    ensures HeaderSafe(CompanyPart(company))
  {
    if company != "" {
      SafeCapitalize(company);
      assert HeaderSafe("_");
      HeaderSafeConcat("_", Capitalize(company));
    }
  }

  lemma SafeStem(parts: seq<string>)
    requires |parts| >= 1 && parts[0] != [] && NoSpace(parts[0])
    requires AllSafe(parts)
    ensures HeaderSafe(Stem(parts))
  {
    var first := Capitalize(parts[0]);
    SafeCapitalize(parts[0]);
    if |parts| >= 2 {
      var last := Capitalize(parts[|parts| - 1]);
      SafeCapitalize(parts[|parts| - 1]);
      assert HeaderSafe("_");
      HeaderSafeConcat(first, "_");
      HeaderSafeConcat(first + "_", last);
    }
  }

  /** A name and a company made of accepted characters give a file name
      made of accepted characters. */
  lemma SafeDownloadName(name: string, company: string)
    requires HeaderSafe(name) && HeaderSafe(company)
    ensures HeaderSafe(DownloadName(name, company))
  {
    var a := TrimIsInfix(name);
    var n := Trim(name);
    SafeSlice(name, a, a + |n|);
    if n == "" {
      assert HeaderSafe(Fallback);
    } else {
      SafeNamedFile(n, company);
    }
  }

  lemma SafeNamedFile(n: string, company: string)
    requires n != [] && IsTrimmed(n) && HeaderSafe(n) && HeaderSafe(company)
    ensures HeaderSafe(NamedFile(n, company))
  {
    var parts := SplitWs(n);
    SplitTrimmedWords(n);
    SafePieces(n);
    SafeStem(parts);
    SafeCompanyPart(company);
    SafeWithExtension(Stem(parts), CompanyPart(company));
  }

  lemma SafeWithExtension(stem: string, part: string)
    requires stem != [] && NoSpace(stem) && NoSpace(part) && HeaderSafe(stem) && HeaderSafe(part)
    ensures HeaderSafe(WithExtension(stem, part))
  {
    assert HeaderSafe(Extension);
    HeaderSafeConcat(stem, part);
    HeaderSafeConcat(stem + part, Extension);
  }

  /** A character outside the accepted set in the first name survives the
      ASCII-only capitalisation, so the header carrying the file name is
      refused. */
  lemma WideFirstNameRefused(first: string, last: string, company: string, i: nat)
    requires first != [] && NoSpace(first) && last != [] && NoSpace(last)
    requires i < |first| && !HeaderChar(first[i])
    ensures !HeaderSafe(DispositionPrefix + DownloadName(first + " " + last, company))
  {
    TwoWords(first, last, company);
    var c := CapWord(first);
    var tail := "_" + CapWord(last) + CompanyPart(company) + Extension;
    WideCharKept(first, i);
    HeaderSafeConcat(c, tail);
    FirstWordThenTail(c, CapWord(last), CompanyPart(company));
    DispositionChecksName(c + tail);
  }

  /** Capitalising keeps a character outside the accepted set where it is. */
  lemma WideCharKept(w: string, i: nat)
    requires i < |w| && !HeaderChar(w[i])
    ensures !HeaderSafe(CapWord(w))
  {
    assert CapWord(w)[i] == w[i];
  }

  lemma FirstWordThenTail(c: string, l: string, p: string)
    ensures c + "_" + l + p + Extension == c + ("_" + l + p + Extension)
  {
  }
}
