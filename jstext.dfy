/** The JavaScript string built-ins the services rely on, written out:
    `String.prototype.trim`, `split(/\s+/)`, `split(/\r?\n/)`, `Number(...)`
    restricted to unsigned decimal digit strings, the template conversion of
    a non-negative integer, and lexicographic comparison character by
    character (by code point). */
module JsText {

  import opened Wrappers

  // ---------------------------------------------------------------------
  // Whitespace
  // ---------------------------------------------------------------------

  /** ECMAScript WhiteSpace and LineTerminator code points: the characters
      `trim` removes and the regular-expression class `\s` matches. */
  predicate IsSpace(c: char) {
    if c <= ' ' then c == ' ' || '\t' <= c <= '\r'
    else '\U{00A0}' <= c && IsWideSpace(c)
  }

  /** The whitespace code points above U+009F. */
  predicate IsWideSpace(c: char) {
    || c == '\U{00A0}' || c == '\U{1680}'
    || ('\U{2000}' <= c <= '\U{200A}')
    || c == '\U{2028}' || c == '\U{2029}' || c == '\U{202F}' || c == '\U{205F}'
    || c == '\U{3000}' || c == '\U{FEFF}'
  }

  predicate AllSpace(s: string) {
    forall i :: 0 <= i < |s| ==> IsSpace(s[i])
  }

  predicate NoSpace(s: string) {
    forall i :: 0 <= i < |s| ==> !IsSpace(s[i])
  }

  /** A non-empty run of non-whitespace characters: what `split(/\s+/)`
      yields for each field of a trimmed line. */
  predicate IsWord(s: string) {
    s != [] && NoSpace(s)
  }

  /** Neither starts nor ends with whitespace. */
  predicate IsTrimmed(s: string) {
    s == [] || (!IsSpace(s[0]) && !IsSpace(s[|s| - 1]))
  }

  // ---------------------------------------------------------------------
  // trim()
  // ---------------------------------------------------------------------

  function TrimStart(s: string): (r: string)
    ensures |r| <= |s|
    ensures r == [] || !IsSpace(r[0])
  {
    if s != [] && IsSpace(s[0]) then TrimStart(s[1..]) else s
  }

  /** `TrimStart` drops a whitespace prefix and keeps the rest. */
  lemma {:induction false} TrimStartParts(s: string)
    ensures TrimStart(s) == s[|s| - |TrimStart(s)|..]
    ensures forall i :: 0 <= i < |s| - |TrimStart(s)| ==> IsSpace(s[i])
  {
    if s != [] && IsSpace(s[0]) {
      var t := s[1..];
      TrimStartParts(t);
      var r := TrimStart(t);
      assert t[|t| - |r|..] == s[|s| - |r|..];
      forall i | 0 <= i < |s| - |r| ensures IsSpace(s[i]) {
        if i > 0 {
          assert s[i] == t[i - 1];
        }
      }
    }
  }

  function TrimEnd(s: string): (r: string)
    ensures |r| <= |s|
    ensures r == [] || !IsSpace(r[|r| - 1])
  {
    if s != [] && IsSpace(s[|s| - 1]) then TrimEnd(s[..|s| - 1]) else s
  }

  /** `TrimEnd` keeps a prefix and drops a whitespace suffix. */
  lemma {:induction false} TrimEndParts(s: string)
    ensures TrimEnd(s) == s[..|TrimEnd(s)|]
    ensures forall i :: |TrimEnd(s)| <= i < |s| ==> IsSpace(s[i])
  {
    if s != [] && IsSpace(s[|s| - 1]) {
      var p := s[..|s| - 1];
      TrimEndParts(p);
      var r := TrimEnd(p);
      assert p[..|r|] == s[..|r|];
      forall i | |r| <= i < |s| ensures IsSpace(s[i]) {
        if i < |s| - 1 {
          assert s[i] == p[i];
        }
      }
    }
  }

  /** `s.trim()` */
  function Trim(s: string): string {
    TrimEnd(TrimStart(s))
  }

  /** `Trim(s)` is the slice of `s` between a whitespace prefix and a
      whitespace suffix. */
  lemma TrimSlice(s: string)
    ensures var i, n := |s| - |TrimStart(s)|, |Trim(s)|;
      i + n <= |s| && Trim(s) == s[i..i + n] && AllSpace(s[..i]) && AllSpace(s[i + n..])
  {
    var t := TrimStart(s);
    var r := TrimEnd(t);
    TrimStartParts(s);
    TrimEndParts(t);
    var i := |s| - |t|;
    assert t == s[i..];
    assert r == t[..|r|];
    var rest := s[i + |r|..];
    forall j | 0 <= j < |rest| ensures IsSpace(rest[j]) {
      assert rest[j] == t[|r| + j];
    }
  }

  /** Only an all-whitespace string trims to the empty string. */
  lemma TrimEmpty(s: string)
    ensures Trim(s) == [] <==> AllSpace(s)
  {
    TrimSlice(s);
    var i := |s| - |TrimStart(s)|;
    if Trim(s) == [] {
      assert s == s[..i] + s[i..];
      AllSpaceConcat(s[..i], s[i..]);
    } else {
      assert s[i] == Trim(s)[0];
    }
  }

  /** The trimmed string starts and ends with non-whitespace, and is empty
      exactly for all-whitespace input. */
  lemma TrimParts(s: string)
    ensures IsTrimmed(Trim(s))
    ensures Trim(s) == [] <==> AllSpace(s)
  {
    TrimEmpty(s);
    var r := Trim(s);
    if r != [] {
      TrimEndParts(TrimStart(s));
      assert r[0] == TrimStart(s)[0];
    }
  }

  lemma TrimOfTrimmed(s: string)
    requires IsTrimmed(s)
    ensures Trim(s) == s
  {
  }

  // ---------------------------------------------------------------------
  // split(/\s+/)
  // ---------------------------------------------------------------------

  /** Index of the first whitespace character, or |s| when there is none. */
  function WordEnd(s: string): (k: nat)
    ensures k <= |s|
    ensures forall i :: 0 <= i < k ==> !IsSpace(s[i])
    ensures k < |s| ==> IsSpace(s[k])
  {
    if s == [] || IsSpace(s[0]) then 0 else 1 + WordEnd(s[1..])
  }

  /** `s.split(/\s+/)`: the pieces between maximal whitespace runs. An empty
      string gives [""], and a leading or trailing run gives an empty first
      or last piece. */
  function SplitWs(s: string): (r: seq<string>)
    ensures |r| >= 1
    decreases |s|
  {
    var k := WordEnd(s);
    if k == |s| then [s]
    else [s[..k]] + SplitWs(TrimStart(s[k + 1..]))
  }

  /** The fields of a line: `line.trim().split(/\s+/)`. */
  function Tokens(line: string): seq<string> {
    SplitWs(Trim(line))
  }

  /** Words separated by single spaces: the inverse of `SplitWs`. */
  function JoinWords(ws: seq<string>): string
    requires |ws| >= 1
  {
    if |ws| == 1 then ws[0] else ws[0] + " " + JoinWords(ws[1..])
  }

  /** Words joined by spaces hold no line feed and do not end in '\r'. */
  lemma {:induction false} JoinedWordsAreOneLine(ws: seq<string>)
    requires |ws| >= 1
    requires forall i :: 0 <= i < |ws| ==> IsWord(ws[i])
    ensures '\n' !in JoinWords(ws)
    ensures JoinWords(ws) != [] && JoinWords(ws)[|JoinWords(ws)| - 1] != '\r'
  {
    assert !IsSpace('\n') ==> false;
    if |ws| > 1 {
      JoinedWordsAreOneLine(ws[1..]);
      var rest := JoinWords(ws[1..]);
      assert '\n' !in ws[0];
      assert JoinWords(ws) == ws[0] + " " + rest;
    } else {
      assert IsSpace('\r');
    }
  }

  lemma WordEndOfWordThenSpace(w: string, rest: string)
    requires NoSpace(w)
    requires rest != [] && IsSpace(rest[0])
    ensures WordEnd(w + rest) == |w|
  {
    if w != [] {
      assert (w + rest)[1..] == w[1..] + rest;
      WordEndOfWordThenSpace(w[1..], rest);
    }
  }

  lemma WordEndOfConcat(a: string, b: string)
    requires WordEnd(a) < |a|
    ensures WordEnd(a + b) == WordEnd(a)
  {
    if !IsSpace(a[0]) {
      assert (a + b)[1..] == a[1..] + b;
      WordEndOfConcat(a[1..], b);
    }
  }

  lemma WordEndOfWord(w: string)
    requires NoSpace(w)
    ensures WordEnd(w) == |w|
  {
    if w != [] {
      WordEndOfWord(w[1..]);
    }
  }

  lemma TrimStartOfSpaces(sp: string, b: string)
    requires AllSpace(sp)
    ensures TrimStart(sp + b) == TrimStart(b)
  {
    if sp != [] {
      assert IsSpace(sp[0]);
      assert (sp + b)[0] == sp[0];
      assert (sp + b)[1..] == sp[1..] + b;
      TrimStartOfSpaces(sp[1..], b);
    } else {
      assert sp + b == b;
    }
  }

  lemma TrimStartOfConcat(a: string, b: string)
    requires !AllSpace(a)
    ensures TrimStart(a + b) == TrimStart(a) + b
  {
    if IsSpace(a[0]) {
      assert (a + b)[1..] == a[1..] + b;
      TrimStartOfConcat(a[1..], b);
    }
  }

  lemma TrimEndOfConcat(a: string, b: string)
    requires b != [] && !IsSpace(b[|b| - 1])
    ensures TrimEnd(a + b) == a + b
  {
  }

  /** Every field of a non-empty trimmed string is a word. */
  lemma {:induction false} SplitTrimmedIsWords(s: string)
    requires s != [] && IsTrimmed(s)
    ensures forall i :: 0 <= i < |SplitWs(s)| ==> IsWord(SplitWs(s)[i])
    decreases |s|
  {
    var k := WordEnd(s);
    if k < |s| {
      SplitRest(s, k);
      var u := TrimStart(s[k + 1..]);
      SplitTrimmedIsWords(u);
      var head := s[..k];
      assert head[0] == s[0];
      assert NoSpace(head);
      SplitWordsCons(head, SplitWs(u));
    } else {
      assert SplitWs(s) == [s];
    }
  }

  lemma SplitWordsCons(w: string, ws: seq<string>)
    requires IsWord(w)
    requires forall i :: 0 <= i < |ws| ==> IsWord(ws[i])
    ensures forall i :: 0 <= i < |[w] + ws| ==> IsWord(([w] + ws)[i])
  {
  }

  /** A word, a space and a string that starts with a non-space character
      split into the word and the fields of that string. */
  lemma SplitCons(w: string, rest: string)
    requires NoSpace(w)
    requires rest != [] && !IsSpace(rest[0])
    ensures SplitWs(w + " " + rest) == [w] + SplitWs(rest)
  {
    var s := w + " " + rest;
    assert s == w + (" " + rest);
    WordEndOfWordThenSpace(w, " " + rest);
    assert s[..|w|] == w;
    assert s[|w| + 1..] == rest;
  }

  /** Splitting words joined by spaces gives the words back. */
  lemma {:induction false} SplitJoinWords(ws: seq<string>)
    requires |ws| >= 1
    requires forall i :: 0 <= i < |ws| ==> IsWord(ws[i])
    ensures SplitWs(JoinWords(ws)) == ws
    ensures IsTrimmed(JoinWords(ws)) && JoinWords(ws) != []
  {
    if |ws| == 1 {
      WordEndOfWord(ws[0]);
    } else {
      var w := ws[0];
      var rest := JoinWords(ws[1..]);
      var s := w + " " + rest;
      assert JoinWords(ws) == s;
      SplitJoinWords(ws[1..]);
      SplitCons(w, rest);
      assert ws == [w] + ws[1..];
      assert s[|s| - 1] == rest[|rest| - 1];
      assert s[0] == w[0];
    }
  }

  /** The case of `SplitAppendWord` where the string is a single word. */
  lemma SplitAppendWordToWord(t: string, sp: string, w: string)
    requires NoSpace(t)
    requires sp != [] && AllSpace(sp) && IsWord(w)
    ensures SplitWs(t + sp + w) == [t] + [w]
  {
    var s := t + sp + w;
    assert s == t + (sp + w);
    WordEndOfWordThenSpace(t, sp + w);
    assert s[..|t|] == t;
    assert s[|t| + 1..] == sp[1..] + w;
    TrimStartOfSpaces(sp[1..], w);
    WordEndOfWord(w);
    assert SplitWs(w) == [w];
  }

  /** After the first field of a non-empty trimmed string and the
      whitespace that follows it, the rest is again non-empty and trimmed. */
  lemma SplitRest(t: string, k: nat)
    requires t != [] && IsTrimmed(t)
    requires k == WordEnd(t) && k < |t|
    ensures var u := TrimStart(t[k + 1..]);
      u != [] && IsTrimmed(u) && |u| < |t| && SplitWs(t) == [t[..k]] + SplitWs(u)
  {
    var tail := t[k + 1..];
    assert tail[|tail| - 1] == t[|t| - 1];
    TrimStartParts(tail);
    var u := TrimStart(tail);
    assert u[|u| - 1] == t[|t| - 1];
  }

  /** One step of `SplitWs` on `t + sp + w`, where the first whitespace of
      `t` is at `k`: the same first field, then the same rest as in `t`. */
  lemma SplitStep(t: string, sp: string, w: string, k: nat)
    requires t != [] && IsTrimmed(t)
    requires sp != [] && AllSpace(sp) && IsWord(w)
    requires k == WordEnd(t) && k < |t|
    ensures SplitWs(t + sp + w) == [t[..k]] + SplitWs(TrimStart(t[k + 1..]) + sp + w)
  {
    var rest := sp + w;
    var s := t + rest;
    assert s == t + sp + w;
    var tail := t[k + 1..];
    WordEndOfConcat(t, rest);
    assert s[..k] == t[..k];
    assert s[k + 1..] == tail + rest;
    assert tail[|tail| - 1] == t[|t| - 1];
    TrimStartOfConcat(tail, rest);
    assert TrimStart(tail) + rest == TrimStart(tail) + sp + w;
  }

  /** Appending whitespace and one more word to a trimmed string adds
      exactly that word to its fields. */
  lemma {:induction false} SplitAppendWord(t: string, sp: string, w: string)
    requires t != [] && IsTrimmed(t)
    requires sp != [] && AllSpace(sp) && IsWord(w)
    ensures SplitWs(t + sp + w) == SplitWs(t) + [w]
    decreases |t|
  {
    var k := WordEnd(t);
    if k == |t| {
      assert t[..k] == t;
      SplitAppendWordToWord(t, sp, w);
    } else {
      SplitRest(t, k);
      SplitStep(t, sp, w, k);
      var u := TrimStart(t[k + 1..]);
      SplitAppendWord(u, sp, w);
    }
  }

  lemma AllSpaceConcat(a: string, b: string)
    requires AllSpace(a) && AllSpace(b)
    ensures AllSpace(a + b)
  {
    forall j | 0 <= j < |a + b| ensures IsSpace((a + b)[j]) {
      if j < |a| { assert (a + b)[j] == a[j]; } else { assert (a + b)[j] == b[j - |a|]; }
    }
  }

  /** Trimming a line that is not blank, followed by whitespace and a word,
      keeps the trimmed line, the whitespace between and the word. */
  lemma TrimAppendWord(line: string, sp: string, w: string)
    requires !AllSpace(line)
    requires sp != [] && AllSpace(sp) && IsWord(w)
    ensures exists gap :: (gap != [] && AllSpace(gap) && Trim(line + sp + w) == Trim(line) + gap + w)
  {
    var t0 := TrimStart(line);
    var t := TrimEnd(t0);
    TrimEndParts(t0);
    var tail := t0[|t|..];
    assert t0 == t + tail;
    TrimStartOfConcat(line, sp + w);
    assert line + sp + w == line + (sp + w);
    var grown := t + (tail + sp);
    assert TrimStart(line + sp + w) == grown + w;
    TrimEndOfConcat(grown, w);
    AllSpaceConcat(tail, sp);
    assert Trim(line + sp + w) == t + (tail + sp) + w;
  }

  /** Appending whitespace and one more word to a line that is not blank
      adds exactly that word to its tokens. */
  lemma TokensAppendWord(line: string, sp: string, w: string)
    requires !AllSpace(line)
    requires sp != [] && AllSpace(sp) && IsWord(w)
    ensures Tokens(line + sp + w) == Tokens(line) + [w]
  {
    TrimAppendWord(line, sp, w);
    var gap :| gap != [] && AllSpace(gap) && Trim(line + sp + w) == Trim(line) + gap + w;
    TrimParts(line);
    SplitAppendWord(Trim(line), gap, w);
  }

  // ---------------------------------------------------------------------
  // split(/\r?\n/)
  // ---------------------------------------------------------------------

  /** Index of the first '\n', or |s| when there is none. */
  function LineEnd(s: string): (k: nat)
    ensures k <= |s| && '\n' !in s[..k]
    ensures k < |s| ==> s[k] == '\n'
  {
    if s == [] || s[0] == '\n' then 0
    else
      var k := 1 + LineEnd(s[1..]);
      assert s[..k] == [s[0]] + s[1..][..k - 1];
      k
  }

  /** Drops one '\r' that immediately precedes a line feed separator. */
  function DropCarriageReturn(s: string): string {
    if s != [] && s[|s| - 1] == '\r' then s[..|s| - 1] else s
  }

  /** `s.split(/\r?\n/)`: a '\r' is part of the separator only directly
      before a '\n'; the last piece keeps a trailing '\r'. */
  function SplitLines(s: string): (r: seq<string>)
    ensures |r| >= 1
    ensures forall i :: 0 <= i < |r| ==> '\n' !in r[i]
    decreases |s|
  {
    var k := LineEnd(s);
    if k == |s| then [s]
    else [DropCarriageReturn(s[..k])] + SplitLines(s[k + 1..])
  }

  function JoinLines(ls: seq<string>): string
    requires |ls| >= 1
  {
    if |ls| == 1 then ls[0] else ls[0] + "\n" + JoinLines(ls[1..])
  }

  lemma {:induction false} LineEndOfLine(l: string, rest: string)
    requires forall i :: 0 <= i < |l| ==> l[i] != '\n'
    requires rest == [] || rest[0] == '\n'
    ensures LineEnd(l + rest) == |l|
    decreases |l|
  {
    if l != [] {
      var s := l + rest;
      assert s[0] == l[0];
      assert s[1..] == l[1..] + rest;
      LineEndOfLine(l[1..], rest);
    } else {
      assert l + rest == rest;
    }
  }

  /** A line without line feeds, a '\n' and more text split into that line,
      less a '\r' at its end, and the lines of the text. */
  lemma LinesCons(l: string, rest: string)
    requires '\n' !in l
    ensures SplitLines(l + "\n" + rest) == [DropCarriageReturn(l)] + SplitLines(rest)
  {
    var s := l + "\n" + rest;
    assert s == l + ("\n" + rest);
    LineEndOfLine(l, "\n" + rest);
    assert s[..|l|] == l;
    assert s[|l| + 1..] == rest;
  }

  /** A line without line feeds is split into itself. */
  lemma SplitOneLine(l: string)
    requires '\n' !in l
    ensures SplitLines(l) == [l]
  {
    LineEndOfLine(l, []);
    assert l + [] == l;
  }

  /** Lines without line feeds, none but the last ending in '\r', joined by
      '\n' split back into the same lines. */
  lemma {:induction false} SplitJoinLines(ls: seq<string>)
    requires |ls| >= 1
    requires forall i :: 0 <= i < |ls| ==> '\n' !in ls[i]
    requires forall i :: 0 <= i < |ls| - 1 ==> ls[i] == [] || ls[i][|ls[i]| - 1] != '\r'
    ensures SplitLines(JoinLines(ls)) == ls
  {
    if |ls| == 1 {
      SplitOneLine(ls[0]);
    } else {
      var tail := ls[1..];
      var rest := JoinLines(tail);
      assert JoinLines(ls) == ls[0] + "\n" + rest;
      assert DropCarriageReturn(ls[0]) == ls[0];
      LinesCons(ls[0], rest);
      SplitJoinLines(tail);
      assert ls == [ls[0]] + tail;
    }
  }

  // ---------------------------------------------------------------------
  // Number(...) and `${n}` on unsigned decimal integers
  // ---------------------------------------------------------------------

  predicate IsDigit(c: char) {
    '0' <= c <= '9'
  }

  predicate AllDigits(s: string) {
    forall i :: 0 <= i < |s| ==> IsDigit(s[i])
  }

  function DigitsValue(s: string): nat
    requires AllDigits(s)
  {
    if s == [] then 0
    else DigitsValue(s[..|s| - 1]) * 10 + (s[|s| - 1] as int - '0' as int)
  }

  /** `Number(s)` where the result is not NaN, restricted to strings of
      decimal digits; every other string is treated as NaN. */
  function ToNumber(s: string): (r: Option<nat>)
    ensures r.Some? <==> s != [] && AllDigits(s)
  {
    if s != [] && AllDigits(s) then Some(DigitsValue(s)) else None
  }

  function DigitChar(d: nat): (c: char)
    requires d < 10
    ensures IsDigit(c) && c as int - '0' as int == d
  {
    ('0' as int + d) as char
  }

  /** `${n}` for a non-negative integer: its shortest decimal form. */
  function NumberToString(n: nat): (s: string)
    ensures s != [] && AllDigits(s)
    ensures |s| > 1 ==> s[0] != '0'
  {
    if n < 10 then [DigitChar(n)]
    else NumberToString(n / 10) + [DigitChar(n % 10)]
  }

  /** Converting a number to text and back gives the number. */
  lemma {:induction false} NumberRoundTrip(n: nat)
    ensures ToNumber(NumberToString(n)) == Some(n)
  {
    var s := NumberToString(n);
    if n >= 10 {
      NumberRoundTrip(n / 10);
      var p := NumberToString(n / 10);
      assert s[..|s| - 1] == p;
      assert s[|s| - 1] == DigitChar(n % 10);
      assert DigitsValue(s) == DigitsValue(p) * 10 + n % 10;
    } else {
      assert s[..0] == [];
      assert DigitsValue(s) == DigitsValue(s[..0]) * 10 + n;
    }
  }

  // ---------------------------------------------------------------------
  // Lexicographic order (localeCompare on fixed-shape keys)
  // ---------------------------------------------------------------------

  /** `a` sorts no later than `b`: a prefix of `b`, or smaller at the first
      position where they differ. */
  predicate LexLeq(a: string, b: string) {
    a == [] || (b != [] && (a[0] < b[0] || (a[0] == b[0] && LexLeq(a[1..], b[1..]))))
  }

  lemma LexTotal(a: string, b: string)
    ensures LexLeq(a, b) || LexLeq(b, a)
  {
  }

  lemma LexAntisymmetric(a: string, b: string)
    requires LexLeq(a, b) && LexLeq(b, a)
    ensures a == b
  {
    if a != [] && b != [] {
      LexAntisymmetric(a[1..], b[1..]);
      assert a == [a[0]] + a[1..];
      assert b == [b[0]] + b[1..];
    }
  }

  lemma LexTransitive(a: string, b: string, c: string)
    requires LexLeq(a, b) && LexLeq(b, c)
    ensures LexLeq(a, c)
  {
    if a != [] && b != [] && c != [] && a[0] == b[0] == c[0] {
      LexTransitive(a[1..], b[1..], c[1..]);
    }
  }
}
