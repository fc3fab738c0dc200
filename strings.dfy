/** JavaScript string primitives used by the pipeline: the whitespace class
    shared by `\s` and `String.prototype.trim`, `trim`, `split(/\s+/)`,
    `join`, and the ASCII part of `toUpperCase`/`toLowerCase`. */
module Strings {

  /** The characters JavaScript's `\s` and `trim` treat as white space
      (WhiteSpace and LineTerminator of ECMAScript). */
  predicate IsSpace(c: char) {
    || c == ' ' || c == '\t' || c == '\n' || c == '\r'
    || c == '\U{000B}' || c == '\U{000C}' || c == '\U{00A0}' || c == '\U{1680}'
    || ('\U{2000}' <= c <= '\U{200A}')
    || c == '\U{2028}' || c == '\U{2029}' || c == '\U{202F}' || c == '\U{205F}'
    || c == '\U{3000}' || c == '\U{FEFF}'
  }

  predicate NoSpace(s: string) {
    forall i :: 0 <= i < |s| ==> !IsSpace(s[i])
  }

  predicate AllSpace(s: string) {
    forall i :: 0 <= i < |s| ==> IsSpace(s[i])
  }

  /** No white space at either end. */
  predicate IsTrimmed(s: string) {
    s == [] || (!IsSpace(s[0]) && !IsSpace(s[|s| - 1]))
  }

  predicate StartsWith(s: string, prefix: string) {
    |prefix| <= |s| && s[..|prefix|] == prefix
  }

  predicate EndsWith(s: string, suffix: string) {
    |suffix| <= |s| && s[|s| - |suffix|..] == suffix
  }

  /** Removes the leading white space. */
  function TrimStart(s: string): (r: string)
    ensures |r| <= |s| && r == s[|s| - |r|..]
    ensures r == [] || !IsSpace(r[0])
    ensures AllSpace(s[..|s| - |r|])
  {
    if s != [] && IsSpace(s[0]) then TrimStart(s[1..]) else s
  }

  /** Removes the trailing white space. */
  function TrimEnd(s: string): (r: string)
    ensures |r| <= |s| && r == s[..|r|]
    ensures r == [] || !IsSpace(r[|r| - 1])
    ensures AllSpace(s[|r|..])
  {
    if s != [] && IsSpace(s[|s| - 1]) then
      var r := TrimEnd(s[..|s| - 1]);
      assert s[..|s| - 1][..|r|] == s[..|r|];
      assert s[|r|..] == s[..|s| - 1][|r|..] + [s[|s| - 1]];
      r
    else s
  }

  /** `String.prototype.trim`. */
  function Trim(s: string): (r: string)
    ensures IsTrimmed(r) && |r| <= |s|
  {
    TrimEnd(TrimStart(s))
  }

  /** `trim` removes white space from both ends and nothing else: its result
      is an infix of the input with only white space around it. */
  lemma TrimIsInfix(s: string) returns (a: nat)
    ensures a + |Trim(s)| <= |s| && Trim(s) == s[a..a + |Trim(s)|]
    ensures AllSpace(s[..a]) && AllSpace(s[a + |Trim(s)|..])
  {
    var t := TrimStart(s);
    var r := TrimEnd(t);
    assert Trim(s) == r;
    a := |s| - |t|;
    InfixOfSuffix(s, t, r);
  }

  /** A prefix `r` of a suffix `t` of `s`, with white space only around
      each, sits in `s` with white space only around it. */
  lemma InfixOfSuffix(s: string, t: string, r: string)
    requires |t| <= |s| && t == s[|s| - |t|..] && AllSpace(s[..|s| - |t|])
    requires |r| <= |t| && r == t[..|r|] && AllSpace(t[|r|..])
    ensures var a := |s| - |t|; r == s[a..a + |r|] && AllSpace(s[..a]) && AllSpace(s[a + |r|..])
  {
    var a := |s| - |t|;
    assert s[a..][|r|..] == s[a + |r|..];
  }

  lemma TrimmedIsFixpoint(s: string)
    requires IsTrimmed(s)
    ensures Trim(s) == s
  {
  }

  lemma TrimIdempotent(s: string)
    ensures Trim(Trim(s)) == Trim(s)
  {
    TrimmedIsFixpoint(Trim(s));
  }

  /** `trim` yields the empty string exactly when the input is all white space. */
  lemma {:induction false} TrimEmptyIffAllSpace(s: string)
    ensures Trim(s) == [] <==> AllSpace(s)
  {
    var r := Trim(s);
    var a := TrimIsInfix(s);
    if r == [] {
      forall i | 0 <= i < |s| ensures IsSpace(s[i]) {
        if i < a { assert s[..a][i] == s[i]; } else { assert s[a..][i - a] == s[i]; }
      }
    } else {
      assert s[a] == r[0];
    }
  }

  /** The longest prefix without white space. */
  function Token(s: string): (r: string)
    ensures |r| <= |s| && r == s[..|r|] && NoSpace(r)
    ensures |r| == |s| || IsSpace(s[|r|])
  {
    if s == [] || IsSpace(s[0]) then []
    else
      var t := Token(s[1..]);
      assert s[1..][..|t|] == s[1..|t| + 1];
      [s[0]] + t
  }

  /** `s.split(/\s+/)`: the pieces between maximal runs of white space; a
      leading or trailing run yields an empty first or last piece, and the
      empty string yields one empty piece. */
  function SplitWs(s: string): (r: seq<string>)
    ensures |r| >= 1
    decreases |s|
  {
    var tok := Token(s);
    if |tok| == |s| then [s]
    else [tok] + SplitWs(TrimStart(s[|tok| + 1..]))
  }

  /** One step of the split: the first token, then the pieces after the
      white space that ends it. */
  lemma SplitUnfold(s: string)
    requires |Token(s)| != |s|
    ensures SplitWs(s) == [Token(s)] + SplitWs(TrimStart(s[|Token(s)| + 1..]))
  {
  }

  /** The empty string is one empty piece. */
  lemma SplitEmpty()
    ensures SplitWs([]) == [[]]
  {
    assert Token([]) == [];
  }

  /** No piece of a split holds white space. */
  lemma {:induction false} SplitPiecesNoSpace(s: string)
    ensures forall i :: 0 <= i < |SplitWs(s)| ==> NoSpace(SplitWs(s)[i])
    decreases |s|
  {
    var tok := Token(s);
    if |tok| != |s| {
      var t := TrimStart(s[|tok| + 1..]);
      SplitPiecesNoSpace(t);
      assert SplitWs(s) == [tok] + SplitWs(t);
    }
  }

  /** `ws.join(sep)`. */
  function Join(ws: seq<string>, sep: string): string {
    if |ws| == 0 then ""
    else if |ws| == 1 then ws[0]
    else ws[0] + sep + Join(ws[1..], sep)
  }

  predicate Words(ws: seq<string>) {
    forall i :: 0 <= i < |ws| ==> ws[i] != [] && NoSpace(ws[i])
  }

  lemma TokenOfWordThenSpace(w: string, rest: string)
    requires NoSpace(w)
    requires rest == [] || IsSpace(rest[0])
    ensures Token(w + rest) == w
  {
    if w != [] {
      assert (w + rest)[1..] == w[1..] + rest;
      TokenOfWordThenSpace(w[1..], rest);
    }
  }

  /** A white-space-free string is a single piece. */
  lemma SplitWord(w: string)
    requires NoSpace(w)
    ensures SplitWs(w) == [w]
  {
    TokenOfWordThenSpace(w, []);
    assert w + [] == w;
  }

  /** Non-empty runs of white space, as many as `split(/\s+/)` removes
      between words. */
  predicate Separators(seps: seq<string>) {
    forall i :: 0 <= i < |seps| ==> seps[i] != [] && AllSpace(seps[i])
  }

  /** `ws[0] + seps[0] + ws[1] + ... + ws[n - 1]`: words joined by the given
      separators. */
  function JoinSeps(ws: seq<string>, seps: seq<string>): string
    decreases |ws|
  {
    if |ws| == 0 then ""
    else if |ws| == 1 || |seps| == 0 then ws[0]
    else ws[0] + seps[0] + JoinSeps(ws[1..], seps[1..])
  }

  /** Words joined by white space start and end with a word character. */
  lemma {:induction false} JoinSepsShape(ws: seq<string>, seps: seq<string>)
    requires |ws| >= 1 && Words(ws) && |seps| == |ws| - 1 && Separators(seps)
    ensures var j := JoinSeps(ws, seps); j != [] && !IsSpace(j[0]) && !IsSpace(j[|j| - 1])
  {
    if |ws| >= 2 {
      var tail := JoinSeps(ws[1..], seps[1..]);
      JoinSepsShape(ws[1..], seps[1..]);
      assert JoinSeps(ws, seps) == ws[0] + (seps[0] + tail);
    }
  }

  /** Skipping leading white space stops at the first word character. */
  lemma {:induction false} TrimStartSpaces(p: string, t: string)
    requires AllSpace(p) && t != [] && !IsSpace(t[0])
    ensures TrimStart(p + t) == t
  {
    if p == [] {
      assert p + t == t;
    } else {
      assert (p + t)[0] == p[0];
      assert (p + t)[1..] == p[1..] + t;
      TrimStartSpaces(p[1..], t);
    }
  }

  /** Splitting words joined by any non-empty runs of white space gives the
      words back: every run, however long and of whatever white-space
      characters, is one separator. */
  lemma {:induction false} SplitJoinRoundTrip(ws: seq<string>, seps: seq<string>)
    requires |ws| >= 1 && Words(ws) && |seps| == |ws| - 1 && Separators(seps)
    ensures SplitWs(JoinSeps(ws, seps)) == ws
  {
    if |ws| == 1 {
      SplitWord(ws[0]);
    } else {
      var tail := JoinSeps(ws[1..], seps[1..]);
      JoinSepsShape(ws[1..], seps[1..]);
      SplitAfterWord(ws[0], seps[0], tail);
      SplitJoinRoundTrip(ws[1..], seps[1..]);
      assert ws == [ws[0]] + ws[1..];
    }
  }

  /** A word, a run of white space and the rest split as the word followed
      by the pieces of the rest. */
  lemma SplitAfterWord(w: string, sep: string, tail: string)
    requires w != [] && NoSpace(w) && sep != [] && AllSpace(sep)
    requires tail != [] && !IsSpace(tail[0])
    ensures SplitWs(w + sep + tail) == [w] + SplitWs(tail)
  {
    var s := w + sep + tail;
    assert s == w + (sep + tail);
    TokenOfWordThenSpace(w, sep + tail);
    assert s[|w| + 1..] == sep[1..] + tail;
    TrimStartSpaces(sep[1..], tail);
  }

  /** Every piece of a trimmed, non-empty string is non-empty. */
  lemma {:induction false} SplitTrimmedWords(s: string)
    requires s != [] && IsTrimmed(s)
    ensures Words(SplitWs(s))
    decreases |s|
  {
    var tok := Token(s);
    TokenNonEmpty(s);
    if |tok| == |s| {
      assert tok == s;
    } else {
      var rest := s[|tok| + 1..];
      assert |rest| >= 1 && rest[|rest| - 1] == s[|s| - 1] by {
        assert IsSpace(s[|tok|]);
      }
      TrimStartKeepsLast(rest);
      var t := TrimStart(rest);
      SplitTrimmedWords(t);
      SplitWordsStep(s, t);
    }
  }

  lemma TokenNonEmpty(s: string)
    requires s != [] && !IsSpace(s[0])
    ensures Token(s) != []
  {
    assert Token(s) == [s[0]] + Token(s[1..]);
  }

  lemma SplitWordsStep(s: string, t: string)
    requires Token(s) != [] && |Token(s)| != |s|
    requires t == TrimStart(s[|Token(s)| + 1..])
    requires Words(SplitWs(t))
    ensures Words(SplitWs(s))
  {
    var r := SplitWs(s);
    assert r == [Token(s)] + SplitWs(t);
    forall i | 0 <= i < |r| ensures r[i] != [] && NoSpace(r[i]) {
      if i > 0 { assert r[i] == SplitWs(t)[i - 1]; }
    }
  }

  lemma {:induction false} TrimStartKeepsLast(s: string)
    requires s != [] && !IsSpace(s[|s| - 1])
    ensures TrimStart(s) != [] && TrimStart(s)[|TrimStart(s)| - 1] == s[|s| - 1]
  {
    if IsSpace(s[0]) {
      TrimStartKeepsLast(s[1..]);
    }
  }

  /** ASCII upper-casing of one character. */
  function Upper(c: char): (r: char)
    ensures 'a' <= c <= 'z' ==> 'A' <= r <= 'Z' && r as int == c as int - 32
    ensures !('a' <= c <= 'z') ==> r == c
  {
    if 'a' <= c <= 'z' then (c as int - 32) as char else c
  }

  /** ASCII lower-casing of one character. */
  function Lower(c: char): (r: char)
    ensures 'A' <= c <= 'Z' ==> 'a' <= r <= 'z' && r as int == c as int + 32
    ensures !('A' <= c <= 'Z') ==> r == c
  {
    if 'A' <= c <= 'Z' then (c as int + 32) as char else c
  }

  function LowerAll(s: string): (r: string)
    ensures |r| == |s| && forall i :: 0 <= i < |s| ==> r[i] == Lower(s[i])
  {
    seq(|s|, i requires 0 <= i < |s| => Lower(s[i]))
  }

  /** `word.charAt(0).toUpperCase() + word.slice(1).toLowerCase()`. */
  function CapWord(w: string): (r: string)
    ensures |r| == |w|
    ensures w != [] ==> r[0] == Upper(w[0])
    ensures forall i :: 1 <= i < |w| ==> r[i] == Lower(w[i])
  {
    if w == [] then [] else [Upper(w[0])] + LowerAll(w[1..])
  }

  /** Capitalising a word twice changes nothing more, and keeps it free of
      white space. */
  lemma CapWordIdempotent(w: string)
    ensures CapWord(CapWord(w)) == CapWord(w)
    ensures NoSpace(w) ==> NoSpace(CapWord(w))
  {
  }

  lemma {:induction false} JoinNoSpace(ws: seq<string>, sep: string)
    requires NoSpace(sep)
    requires forall i :: 0 <= i < |ws| ==> NoSpace(ws[i])
    ensures NoSpace(Join(ws, sep))
  {
    if |ws| >= 2 {
      JoinNoSpace(ws[1..], sep);
      assert Join(ws, sep) == ws[0] + sep + Join(ws[1..], sep);
    }
  }
}
