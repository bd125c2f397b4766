/** actions.c: backslash escaping into a buffer that grows as needed. */
module Escaping {

  const SPECIAL: string := "\\' ;$!#{}[]\""

  /** What one source character becomes. */
  function EscapeChar(c: char, charset: string): string {
    if charset == "" then
      if c == '\n' then "\\n"
      else if c == '\t' then "\\t"
      else if c in SPECIAL then ['\\', c]
      else [c]
    else if c in charset then ['\\', c]
    else [c]
  }

  lemma EscapeLength(c: char, charset: string)
    ensures 1 <= |EscapeChar(c, charset)| <= 2
  {
  }

  function Escape(s: string, charset: string): string {
    if s == "" then "" else Escape(s[..|s| - 1], charset) + EscapeChar(s[|s| - 1], charset)
  }

  /** escape_chars.  The buffer is reallocated two bytes larger whenever fewer than two would be left for
      the next character after keeping one for the terminator. */
  method EscapeChars(source: string, charset: string) returns (dest: array<char>, d: nat)
    ensures d < dest.Length && dest[..d] == Escape(source, charset) && dest[d] == '\0'
  {
    hide EscapeChar;
    dest, d := new char[|source| + 1], 0;
    var s := 0;
    while s < |source|
      invariant 0 <= s <= |source| && d < dest.Length && fresh(dest)
      invariant s < |source| ==> dest.Length >= 2
      invariant dest[..d] == Escape(source[..s], charset)
    {
      if d >= dest.Length - 2 {
        dest := Grow(dest, d);
      }
      assert source[..s + 1][..s] == source[..s];
      var e := EscapeChar(source[s], charset);
      EscapeLength(source[s], charset);
      ghost var before := dest[..d];
      dest[d] := e[0];
      if |e| == 2 {
        dest[d + 1] := e[1];
      }
      assert dest[..d + |e|] == before + e;
      d := d + |e|;
      s := s + 1;
    }
    assert source[..|source|] == source;
    dest[d] := '\0';
  }

  /** my_realloc to two bytes more. */
  method Grow(dest: array<char>, d: nat) returns (larger: array<char>)
    requires d <= dest.Length
    ensures fresh(larger) && larger.Length == dest.Length + 2
    ensures larger[..d] == dest[..d]
  {
    larger := new char[dest.Length + 2];
    for i := 0 to d
      invariant larger[..i] == dest[..i]
    {
      larger[i] := dest[i];
    }
  }

  // ---- reading it back ----

  /** Backslash unescaping with \n and \t mapped back. */
  function Unescape(t: string): string {
    if t == "" then ""
    else if t[0] == '\\' && |t| >= 2 then
      [if t[1] == 'n' then '\n' else if t[1] == 't' then '\t' else t[1]] + Unescape(t[2..])
    else [t[0]] + Unescape(t[1..])
  }

  /** Plain unescaping: drop each escaping backslash. */
  function Unquote(t: string): string {
    if t == "" then ""
    else if t[0] == '\\' && |t| >= 2 then [t[1]] + Unquote(t[2..])
    else [t[0]] + Unquote(t[1..])
  }

  lemma {:induction false} EscapeFront(s: string, charset: string)
    requires s != ""
    ensures Escape(s, charset) == EscapeChar(s[0], charset) + Escape(s[1..], charset)
  {
    hide EscapeChar;
    var n := |s| - 1;
    if n > 0 {
      EscapeFront(s[..n], charset);
      assert s[..n][1..] == s[1..][..n - 1] && s[1..][n - 1] == s[n];
    } else {
      assert s[..n] == "" && s[1..] == "";
    }
  }

  lemma EmptyRecovered()
    ensures Unescape("") == ""
  {
  }

  lemma UnescapeStep(c: char, r: string)
    ensures Unescape(EscapeChar(c, "") + r) == [c] + Unescape(r)
  {
    var e := EscapeChar(c, "");
    assert (e + r)[|e|..] == r;
  }

  /** With the default character set every string is recovered. */
  lemma {:induction false} UnescapeEscape(s: string)
    ensures Unescape(Escape(s, "")) == s
  {
    hide EscapeChar, Unescape;
    if s == "" {
      EmptyRecovered();
    } else {
      UnescapeEscape(s[1..]);
      EscapeFront(s, "");
      UnescapeStep(s[0], Escape(s[1..], ""));
      assert s == [s[0]] + s[1..];
    }
  }

  /** With a caller's character set every string is recovered if and only if the set has the backslash. */
  lemma UnquoteEscapeExactlyWhen(charset: string)
    requires charset != ""
    ensures (forall s :: Unquote(Escape(s, charset)) == s) <==> '\\' in charset
  {
    if '\\' in charset {
      forall s ensures Unquote(Escape(s, charset)) == s {
        UnquoteEscape(s, charset);
      }
    } else {
      var s := LostBackslash(charset);
      assert Unquote(Escape(s, charset)) != s;
    }
  }

  lemma UnquoteStep(c: char, charset: string, r: string)
    requires '\\' in charset
    ensures Unquote(EscapeChar(c, charset) + r) == [c] + Unquote(r)
  {
    var e := EscapeChar(c, charset);
    assert (e + r)[|e|..] == r;
  }

  lemma {:induction false} UnquoteEscape(s: string, charset: string)
    requires '\\' in charset
    ensures Unquote(Escape(s, charset)) == s
  {
    if s == "" {
    } else {
      UnquoteEscape(s[1..], charset);
      hide EscapeChar, Unquote;
      EscapeFront(s, charset);
      UnquoteStep(s[0], charset, Escape(s[1..], charset));
      assert s == [s[0]] + s[1..];
    }
  }

  /** A source backslash that is not escaped swallows the one written, or eats its neighbour. */
  lemma LostBackslash(charset: string) returns (s: string)
    requires charset != "" && '\\' !in charset
    ensures Unquote(Escape(s, charset)) != s
  {
    s := "\\\\";
    var t := "\\";
    assert s[..1] == t && t[..0] == "";
    assert Escape(t, charset) == t;
    assert Escape(s, charset) == s;
    assert s[2..] == "";
    assert |Unquote(s)| == 1;
  }

  /** Characters the default set protects. */
  predicate Protected(c: char) {
    c in {'\n', '\t', '\\', '\'', ' ', ';', '$', '!', '#', '{', '}', '[', ']', '\"'}
  }

  /** t is a run of plain characters and backslash pairs. */
  predicate Guarded(t: string) {
    t == "" || (if t[0] == '\\' then |t| >= 2 && Guarded(t[2..]) else !Protected(t[0]) && Guarded(t[1..]))
  }

  /** No protected character is left bare, for every string. */
  lemma {:induction false} EscapeGuards(s: string)
    ensures Guarded(Escape(s, ""))
  {
    if s == "" {
    } else {
      EscapeGuards(s[1..]);
      EscapeFront(s, "");
      hide Guarded, EscapeChar;
      GuardsOne(s[0], Escape(s[1..], ""));
    }
  }

  lemma GuardsOne(c: char, r: string)
    requires Guarded(r)
    ensures Guarded(EscapeChar(c, "") + r)
  {
    var e := EscapeChar(c, "");
    assert (e + r)[|e|..] == r;
  }

  /** The characters that get a backslash. */
  predicate Escaped(c: char, charset: string) {
    if charset == "" then Protected(c) else c in charset
  }

  function CountEscaped(s: string, charset: string): nat {
    if s == "" then 0 else (if Escaped(s[0], charset) then 1 else 0) + CountEscaped(s[1..], charset)
  }

  /** Nothing else is escaped: the text grows by one for each such character, and stays as it is without any. */
  lemma {:induction false} EscapeGrows(s: string, charset: string)
    ensures |Escape(s, charset)| == |s| + CountEscaped(s, charset)
    ensures Escape(s, charset) == s <==> forall c :: c in s ==> !Escaped(c, charset)
  {
    if s == "" {
    } else {
      hide EscapeChar, Escape, Escaped;
      var c, rest := s[0], s[1..];
      EscapeGrows(rest, charset);
      EscapeFront(s, charset);
      EscapeOne(c, charset);
      assert s == [c] + rest;
      if Escaped(c, charset) {
        assert c in s && |Escape(s, charset)| > |s|;
      } else {
        assert Escape(s, charset) == [c] + Escape(rest, charset);
        assert Escape(s, charset) == s <==> Escape(rest, charset) == rest;
        assert forall d :: d in s <==> d == c || d in rest;
      }
    }
  }

  lemma EscapeOne(c: char, charset: string)
    ensures if Escaped(c, charset) then |EscapeChar(c, charset)| == 2 && EscapeChar(c, charset)[0] == '\\'
            else EscapeChar(c, charset) == [c]
  {
  }

  /** With the default set the result is one line without tabs. */
  lemma {:induction false} EscapeIsOneLine(s: string)
    ensures '\n' !in Escape(s, "") && '\t' !in Escape(s, "")
  {
    if s == "" {
    } else {
      EscapeIsOneLine(s[..|s| - 1]);
    }
  }
}
