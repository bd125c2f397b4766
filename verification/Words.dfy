/** Strings as the command interpreter and the C library see them: words, tokens, decimal numbers. */
module Words {

  /** Cut at every c; unlike strtok this keeps empty pieces. */
  function Split(s: string, c: char): (r: seq<string>)
    ensures |r| >= 1
  {
    if s == "" then [""]
    else
      var r := Split(s[1..], c);
      if s[0] == c then [""] + r else [[s[0]] + r[0]] + r[1..]
  }

  /** strtok: the non-empty pieces. */
  function Tokens(s: string, c: char): seq<string> {
    NonEmpty(Split(s, c))
  }

  function NonEmpty(ws: seq<string>): seq<string> {
    if ws == [] then [] else (if ws[0] == "" then [] else [ws[0]]) + NonEmpty(ws[1..])
  }

  function Join(ws: seq<string>, c: char): string
    requires ws != []
  {
    if |ws| == 1 then ws[0] else ws[0] + [c] + Join(ws[1..], c)
  }

  lemma {:induction false} SplitWord(w: string, c: char)
    requires c !in w
    ensures Split(w, c) == [w]
  {
    if w == "" {
    } else {
      SplitWord(w[1..], c);
      assert w == [w[0]] + w[1..];
    }
  }

  lemma {:induction false} SplitFirst(w: string, rest: string, c: char)
    requires c !in w
    ensures Split(w + [c] + rest, c) == [w] + Split(rest, c)
  {
    var s := w + [c] + rest;
    if w == "" {
      assert s[1..] == rest;
    } else {
      SplitFirst(w[1..], rest, c);
      assert s[1..] == w[1..] + [c] + rest;
      assert w == [w[0]] + w[1..];
    }
  }

  /** Words without the separator survive being joined and split. */
  lemma {:induction false} SplitJoin(ws: seq<string>, c: char)
    requires ws != [] && forall w :: w in ws ==> c !in w
    ensures Split(Join(ws, c), c) == ws
  {
    hide Split;
    if |ws| == 1 {
      SplitWord(ws[0], c);
    } else {
      assert forall w :: w in ws[1..] ==> w in ws;
      SplitJoin(ws[1..], c);
      SplitFirst(ws[0], Join(ws[1..], c), c);
      assert ws == [ws[0]] + ws[1..];
    }
  }

  // ---- the n-th field ----

  /** find_nth without quoting characters, left of them `more` fields to begin: a run of separators is one,
      a backslash is dropped and takes the next character as it is. */
  function FieldFrom(s: string, sep: char, more: nat, atStart: bool, escaped: bool): string {
    if s == "" then ""
    else if !escaped && s[0] == '\\' then FieldFrom(s[1..], sep, more, atStart, true)
    else if !escaped && s[0] == sep then
      if more == 0 then "" else FieldFrom(s[1..], sep, more, true, false)
    else if atStart && more <= 1 then [s[0]] + FieldFrom(s[1..], sep, 0, false, false)
    else if atStart then FieldFrom(s[1..], sep, more - 1, false, false)
    else (if more == 0 then [s[0]] else "") + FieldFrom(s[1..], sep, more, false, false)
  }

  /** find_nth, fields counted from 1. */
  function FindNth(s: string, sep: char, n: nat): string
    requires n >= 1
  {
    FieldFrom(s, sep, n, true, false)
  }

  function Nth(ws: seq<string>, n: nat): string
    requires n >= 1
  {
    if n <= |ws| then ws[n - 1] else ""
  }

  /** Without backslashes it is the n-th non-empty piece. */
  lemma FindNthIsToken(s: string, sep: char, n: nat)
    requires n >= 1 && sep != '\\' && '\\' !in s
    ensures FindNth(s, sep, n) == Nth(Tokens(s, sep), n)
  {
    FieldFromStart(s, sep, n);
  }

  lemma SplitStep(s: string, c: char)
    ensures s == "" ==> Split(s, c) == [""] && NonEmpty([""]) == []
    ensures s != "" && s[0] == c ==>
              && Split(s, c)[0] == "" && Split(s, c)[1..] == Split(s[1..], c)
              && NonEmpty(Split(s, c)) == NonEmpty(Split(s[1..], c))
    ensures s != "" && s[0] != c ==>
              && Split(s, c)[0] == [s[0]] + Split(s[1..], c)[0] && Split(s, c)[1..] == Split(s[1..], c)[1..]
              && NonEmpty(Split(s, c)) == [Split(s, c)[0]] + NonEmpty(Split(s[1..], c)[1..])
  {
    if s == "" {
      assert [""][1..] == [];
    } else {
      var r := Split(s[1..], c);
      assert s[0] == c ==> ([""] + r)[1..] == r;
      assert s[0] != c ==> ([[s[0]] + r[0]] + r[1..])[1..] == r[1..];
    }
  }

  lemma {:induction false} FieldFromStart(s: string, sep: char, n: nat)
    requires n >= 1 && sep != '\\' && '\\' !in s
    ensures FieldFrom(s, sep, n, true, false) == Nth(Tokens(s, sep), n)
    decreases |s|, 1
  {
    hide Split, NonEmpty;
    SplitStep(s, sep);
    if s == "" {
    } else {
      assert '\\' !in s[1..];
      if s[0] == sep {
        FieldFromStart(s[1..], sep, n);
      } else {
        FieldFromMiddle(s[1..], sep, n - 1);
      }
    }
  }

  lemma {:induction false} FieldFromMiddle(s: string, sep: char, more: nat)
    requires sep != '\\' && '\\' !in s
    ensures FieldFrom(s, sep, more, false, false)
            == if more == 0 then Split(s, sep)[0] else Nth(NonEmpty(Split(s, sep)[1..]), more)
    decreases |s|, 0
  {
    hide Split, NonEmpty;
    SplitStep(s, sep);
    if s == "" {
      assert [""][1..] == [];
      NothingLeft();
    } else {
      assert '\\' !in s[1..];
      if s[0] == sep {
        if more > 0 { FieldFromStart(s[1..], sep, more); }
      } else {
        FieldFromMiddle(s[1..], sep, more);
      }
    }
  }

  lemma NothingLeft()
    ensures NonEmpty([]) == []
  {
  }

  // ---- decimal numbers ----

  predicate IsDigit(c: char) { '0' <= c <= '9' }

  function DigitChar(d: nat): char
    requires d < 10
  {
    '0' + d as char
  }

  /** printf %d of a non-negative number. */
  function Itoa(n: nat): string {
    if n < 10 then [DigitChar(n)] else Itoa(n / 10) + [DigitChar(n % 10)]
  }

  /** The value of the leading digits, continuing from acc. */
  function Digits(s: string, acc: nat): nat {
    if s == "" || !IsDigit(s[0]) then acc else Digits(s[1..], 10 * acc + (s[0] - '0') as nat)
  }

  predicate IsSpace(c: char) { c == ' ' || '\t' <= c <= '\r' }

  /** atoi: leading white space, an optional sign, digits; everything else is ignored. */
  function Atoi(s: string): int {
    if s == "" then 0
    else if IsSpace(s[0]) then Atoi(s[1..])
    else if s[0] == '-' then -(Digits(s[1..], 0) as int)
    else if s[0] == '+' then Digits(s[1..], 0)
    else Digits(s, 0)
  }

  lemma {:induction false} DigitsAppend(s: string, d: nat, acc: nat)
    requires d < 10 && forall c :: c in s ==> IsDigit(c)
    ensures Digits(s + [DigitChar(d)], acc) == 10 * Digits(s, acc) + d
  {
    if s == "" {
      assert s + [DigitChar(d)] == [DigitChar(d)] && [DigitChar(d)][1..] == "";
    } else {
      assert (s + [DigitChar(d)])[1..] == s[1..] + [DigitChar(d)];
      assert s[0] in s && forall c :: c in s[1..] ==> c in s;
      DigitsAppend(s[1..], d, 10 * acc + (s[0] - '0') as nat);
    }
  }

  lemma {:induction false} ItoaDigits(n: nat)
    ensures Itoa(n) != "" && (forall c :: c in Itoa(n) ==> IsDigit(c)) && Digits(Itoa(n), 0) == n
  {
    if n < 10 {
      assert [DigitChar(n)][1..] == "";
    } else {
      ItoaDigits(n / 10);
      DigitsAppend(Itoa(n / 10), n % 10, 0);
    }
  }

  /** Different numbers are printed differently. */
  lemma ItoaInjective(m: nat, n: nat)
    requires Itoa(m) == Itoa(n)
    ensures m == n
  {
    ItoaDigits(m);
    ItoaDigits(n);
  }

  /** atoi reads back what printf wrote. */
  lemma AtoiItoa(n: nat)
    ensures Atoi(Itoa(n)) == n && ' ' !in Itoa(n)
  {
    ItoaDigits(n);
    assert Itoa(n)[0] in Itoa(n);
  }

  // ---- what the readers make of other texts ----

  /** A backslash before a separator or a backslash. */
  function ProtectChar(c: char, sep: char): string {
    if c == sep || c == '\\' then ['\\', c] else [c]
  }

  function Protect(w: string, sep: char): string {
    if w == "" then "" else ProtectChar(w[0], sep) + Protect(w[1..], sep)
  }

  function ProtectAll(ws: seq<string>, sep: char): (r: seq<string>)
    ensures |r| == |ws|
  {
    if ws == [] then [] else [Protect(ws[0], sep)] + ProtectAll(ws[1..], sep)
  }

  /** Reading one protected character. */
  lemma FieldStep(c: char, t: string, sep: char, more: nat, atStart: bool)
    requires sep != '\\'
    ensures FieldFrom(ProtectChar(c, sep) + t, sep, more, atStart, false)
            == var left := if atStart && more > 0 then more - 1 else more;
               (if left == 0 then [c] else "") + FieldFrom(t, sep, left, false, false)
  {
    var s := ProtectChar(c, sep) + t;
    if c == sep || c == '\\' {
      assert s[1..][0] == c && s[1..][1..] == t;
    } else {
      assert s[1..] == t;
    }
  }

  /** Reading a protected word inside a field, with t behind it. */
  lemma {:induction false} FieldOfProtected(w: string, t: string, sep: char, more: nat)
    requires sep != '\\'
    ensures FieldFrom(Protect(w, sep) + t, sep, more, false, false)
            == (if more == 0 then w else "") + FieldFrom(t, sep, more, false, false)
  {
    hide FieldFrom, ProtectChar;
    if w == "" {
      assert Protect(w, sep) + t == t;
    } else {
      var rest := Protect(w[1..], sep) + t;
      FieldOfProtected(w[1..], t, sep, more);
      FieldStep(w[0], rest, sep, more, false);
      assert Protect(w, sep) + t == ProtectChar(w[0], sep) + rest;
      assert w == [w[0]] + w[1..];
    }
  }

  lemma FieldAtProtected(w: string, t: string, sep: char, more: nat)
    requires sep != '\\' && w != "" && more >= 1
    ensures FieldFrom(Protect(w, sep) + t, sep, more, true, false)
            == (if more == 1 then w else "") + FieldFrom(t, sep, more - 1, false, false)
  {
    hide FieldFrom, ProtectChar;
    var rest := Protect(w[1..], sep) + t;
    FieldOfProtected(w[1..], t, sep, more - 1);
    FieldStep(w[0], rest, sep, more, true);
    assert Protect(w, sep) + t == ProtectChar(w[0], sep) + rest;
    assert w == [w[0]] + w[1..];
  }

  /** Any non-empty words, separators and backslashes in them protected, are read back field by field. */
  lemma {:induction false} FindNthProtected(ws: seq<string>, sep: char, n: nat)
    requires ws != [] && n >= 1 && sep != '\\' && forall w :: w in ws ==> w != ""
    ensures FindNth(Join(ProtectAll(ws, sep), sep), sep, n) == Nth(ws, n)
    decreases |ws|
  {
    assert ws[0] in ws;
    if |ws| == 1 {
      FieldAtProtected(ws[0], "", sep, n);
      assert Protect(ws[0], sep) + "" == Protect(ws[0], sep);
    } else {
      assert forall w :: w in ws[1..] ==> w in ws;
      var later := Join(ProtectAll(ws[1..], sep), sep);
      var t := [sep] + later;
      assert ProtectAll(ws, sep)[1..] == ProtectAll(ws[1..], sep);
      assert Join(ProtectAll(ws, sep), sep) == Protect(ws[0], sep) + t;
      FieldAtProtected(ws[0], t, sep, n);
      assert t[1..] == later;
      if n > 1 {
        FindNthProtected(ws[1..], sep, n - 1);
      }
    }
  }

  /** atoi skips white space, heeds one sign, and stops at the first character that is no digit. */
  lemma {:induction false} AtoiReads(pre: string, sign: string, n: nat, rest: string)
    requires forall c :: c in pre ==> c == ' ' || 9 <= c as int <= 13
    requires sign in {"", "-", "+"} && (rest == "" || !('0' <= rest[0] <= '9'))
    ensures Atoi(pre + sign + Itoa(n) + rest) == if sign == "-" then -(n as int) else n
  {
    hide Itoa, Digits;
    var s := pre + sign + Itoa(n) + rest;
    if pre == "" {
      ItoaDigits(n);
      assert Itoa(n)[0] in Itoa(n);
      DigitsStop(Itoa(n), rest, 0);
      assert s == sign + (Itoa(n) + rest);
      if sign == "" {
        assert s == Itoa(n) + rest && s[0] == Itoa(n)[0];
      } else {
        assert s[1..] == Itoa(n) + rest;
      }
    } else {
      assert pre[0] in pre && forall c :: c in pre[1..] ==> c in pre;
      AtoiReads(pre[1..], sign, n, rest);
      assert s[1..] == pre[1..] + sign + Itoa(n) + rest;
    }
  }

  lemma {:induction false} DigitsStop(s: string, rest: string, acc: nat)
    requires (forall c :: c in s ==> IsDigit(c)) && (rest == "" || !IsDigit(rest[0]))
    ensures Digits(s + rest, acc) == Digits(s, acc)
  {
    if s == "" {
      assert s + rest == rest;
    } else {
      assert s[0] in s && forall c :: c in s[1..] ==> c in s;
      assert (s + rest)[1..] == s[1..] + rest;
      DigitsStop(s[1..], rest, 10 * acc + (s[0] - '0') as nat);
    }
  }

  /** A text that starts otherwise counts as 0. */
  lemma AtoiOfOther(s: string)
    requires s == "" || !(s[0] == ' ' || 9 <= s[0] as int <= 13 || s[0] == '-' || s[0] == '+' || '0' <= s[0] <= '9')
    ensures Atoi(s) == 0
  {
  }
}
