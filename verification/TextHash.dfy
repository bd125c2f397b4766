/** actions.c: the file hash that is meant to be the same for a file with Unix and with DOS line ends. */
module TextHash {

  /** A byte string; a character stands for the byte of its code modulo 256. */
  type Text = string

  const CR := '\r'
  const LF := '\n'

  function Step(h: nat, c: char): nat {
    (h + (h * 32) % 0x1_0000_0000 + c as int % 256) % 0x1_0000_0000
  }

  /** The plain multiplicative hash of a byte string. */
  function Hash(s: Text): nat {
    if s == [] then 5381 else Step(Hash(s[..|s| - 1]), s[|s| - 1])
  }

  predicate EndsInCR(s: Text) { s != [] && s[|s| - 1] == CR }

  // ---- what is hashed ----

  /** Delete every CR that is followed by another CR or by an LF. */
  function Canon(s: Text): Text {
    if s == [] then []
    else (if |s| > 1 && Swallows(s[0], s[1]) then [] else [s[0]]) + Canon(s[1..])
  }

  /** The comment's reading: delete every CR that is followed by an LF, and no other. */
  function Strip(s: Text): Text {
    if s == [] then []
    else (if s[0] == CR && |s| > 1 && s[1] == LF then [] else [s[0]]) + Strip(s[1..])
  }

  /** A Unix text rewritten with DOS line ends. */
  function ToDos(s: Text): Text {
    if s == [] then [] else (if s[0] == LF then [CR, LF] else [s[0]]) + ToDos(s[1..])
  }

  predicate Swallows(c: char, next: char) { c == CR && (next == CR || next == LF) }

  lemma {:induction false} CanonEnds(s: Text)
    ensures s != [] ==> Canon(s) != [] && Canon(s)[|Canon(s)| - 1] == s[|s| - 1]
  {
    hide Canon, Swallows;
    if |s| == 0 {
    } else if |s| == 1 {
      SingleByte(s[0]);
      assert s == [s[0]];
    } else {
      CanonEnds(s[1..]);
      CanonCons(s);
      assert s[1..][|s| - 2] == s[|s| - 1];
    }
  }

  /** What has been hashed when s has been read: a final CR is held back. */
  function Pending(s: Text): Text {
    if EndsInCR(s) && Canon(s) != [] then Canon(s)[..|Canon(s)| - 1] else Canon(s)
  }

  /** What the first byte contributes. */
  function Front(s: Text): Text
    requires s != []
  {
    if |s| > 1 && Swallows(s[0], s[1]) then [] else [s[0]]
  }

  lemma PendingCons(s: Text)
    requires |s| > 1
    ensures EndsInCR(s) == EndsInCR(s[1..]) && Pending(s) == Front(s) + Pending(s[1..])
  {
    assert s[1..][|s| - 2] == s[|s| - 1];
    CanonEnds(s[1..]);
    var a, b := Front(s), Canon(s[1..]);
    assert Canon(s) == a + b && b != [];
    assert (a + b)[..|a + b| - 1] == a + b[..|b| - 1];
  }

  lemma {:induction false} CanonSnoc(s: Text, c: char)
    ensures Canon(s + [c]) == (if EndsInCR(s) && Swallows(CR, c) then Pending(s) else Canon(s)) + [c]
  {
    var t := s + [c];
    if s == [] {
      SingleByte(c);
      assert t == [c];
    } else if |s| == 1 {
      SingleByte(s[0]);
      SingleByte(c);
      assert t[1..] == [c] && s == [s[0]];
      CanonCons(t);
    } else {
      CanonSnoc(s[1..], c);
      SnocStep(s, c);
    }
  }

  lemma SnocStep(s: Text, c: char)
    requires |s| > 1
    requires Canon(s[1..] + [c]) == (if EndsInCR(s[1..]) && Swallows(CR, c) then Pending(s[1..]) else Canon(s[1..]))
        + [c]
    ensures Canon(s + [c]) == (if EndsInCR(s) && Swallows(CR, c) then Pending(s) else Canon(s)) + [c]
  {
    hide Swallows, Pending, EndsInCR, Canon, Front;
    FrontSnoc(s, c);
    PendingCons(s);
    CanonCons(s);
    var a, b := Pending(s[1..]), Canon(s[1..]);
    assert Front(s) + (a + [c]) == (Front(s) + a) + [c];
    assert Front(s) + (b + [c]) == (Front(s) + b) + [c];
  }

  lemma SingleByte(c: char)
    ensures Canon([c]) == [c] && Pending([c]) == if c == CR then [] else [c]
  {
    assert [c][1..] == [];
  }

  lemma CanonCons(s: Text)
    requires s != []
    ensures Canon(s) == Front(s) + Canon(s[1..])
  {
  }

  lemma FrontSnoc(s: Text, c: char)
    requires |s| > 1
    ensures Canon(s + [c]) == Front(s) + Canon(s[1..] + [c])
  {
    hide Swallows;
    assert (s + [c])[1..] == s[1..] + [c];
    CanonCons(s + [c]);
  }

  lemma PendingEnd(s: Text)
    ensures Canon(s) == if EndsInCR(s) then Pending(s) + [CR] else Pending(s)
  {
    CanonEnds(s);
  }

  lemma PendingSnoc(s: Text, c: char)
    ensures Pending(s + [c]) == if c == CR then Pending(s)
                                else if EndsInCR(s) && c != LF then Pending(s) + [CR] + [c]
                                else Pending(s) + [c]
  {
    PendingEnd(s);
    CanonSnoc(s, c);
  }

  /** Unix and DOS versions of a text are hashed alike, whatever CRs the text already contains. */
  lemma {:induction false} CanonIgnoresLineEnds(s: Text)
    ensures Canon(ToDos(s)) == Canon(s)
  {
    if s == [] {
    } else {
      CanonIgnoresLineEnds(s[1..]);
      var d := ToDos(s[1..]);
      assert d != [] ==> d[0] == (if s[1] == LF then CR else s[1]);
      if s[0] == LF {
        assert ToDos(s) == [CR, LF] + d && ToDos(s)[1..] == [LF] + d;
        assert ([LF] + d)[1..] == d;
      } else {
        assert ToDos(s)[1..] == d;
        if |s| > 1 { assert d != []; } else { assert d == []; }
      }
    }
  }

  /** Two CRs in a row. */
  predicate DoubleCR(s: Text) { exists i :: 0 < i < |s| && s[i - 1] == CR && s[i] == CR }

  lemma {:induction false} CanonShorter(s: Text)
    ensures |Canon(s)| <= |Strip(s)|
    ensures DoubleCR(s) ==> |Canon(s)| < |Strip(s)|
    ensures !DoubleCR(s) ==> Canon(s) == Strip(s)
  {
    if |s| == 0 {
    } else {
      CanonShorter(s[1..]);
      if DoubleCR(s) {
        var i :| 0 < i < |s| && s[i - 1] == CR && s[i] == CR;
        if i > 1 { assert s[1..][i - 2] == CR && s[1..][i - 1] == CR; }
      }
      if DoubleCR(s[1..]) {
        var i :| 0 < i < |s[1..]| && s[1..][i - 1] == CR && s[1..][i] == CR;
        assert s[i] == CR && s[i + 1] == CR;
      }
    }
  }

  /** The code and its comment agree exactly on the texts without two CRs in a row: of a run of CRs
      the code keeps one, or none before an LF. */
  lemma CanonIsStripExactlyWhen(s: Text)
    ensures Canon(s) == Strip(s) <==> !DoubleCR(s)
  {
    CanonShorter(s);
  }

  lemma CanonDiffersFromStrip()
    ensures var s: Text := [CR, CR, 'x']; Canon(s) == [CR, 'x'] && Strip(s) == s
  {
    var s: Text := [CR, CR, 'x'];
    var t: Text := [CR, 'x'];
    var u: Text := ['x'];
    assert s[1..] == t && t[1..] == u && u[1..] == [];
    assert Canon(u) == u && Strip(u) == u;
    assert Canon(t) == t && Strip(t) == t;
  }

  // ---- the code ----

  /** The bytes the skipping rule compares against. */
  function Slice(line: Text, from: nat, n: nat): Text {
    if from + n <= |line| then line[from..from + n] else []
  }

  predicate PathLine(line: Text) {
    && |line| > 14
    && (|| Slice(line, 2, 11) == " sch_path: " || Slice(line, 2, 11) == " sym_path: "
        || Slice(line, 0, 9) == ".include " || Slice(line, 0, 9) == ".INCLUDE ")
  }

  /** The bytes of the lines that are not skipped. */
  function Hashed(lines: seq<Text>, skipPathLines: bool): Text {
    if lines == [] then []
    else
      var n := |lines| - 1;
      Hashed(lines[..n], skipPathLines) + if skipPathLines && PathLine(lines[n]) then [] else lines[n]
  }

  lemma HashSnoc(s: Text, c: char)
    ensures Hash(s + [c]) == Step(Hash(s), c)
  {
    assert (s + [c])[..|s|] == s;
  }

  lemma NothingRead()
    ensures Pending([]) == [] && Hash([]) == 5381
  {
  }

  /** hash_file, from the lines read: the value is the hash of the canonical text. */
  method HashFile(lines: seq<Text>, skipPathLines: bool) returns (h: nat)
    ensures h == Hash(Canon(Hashed(lines, skipPathLines)))
  {
    hide Canon, Pending, PathLine, Step;
    var cr := false;
    h := 5381;
    NothingRead();
    ghost var done: Text := [];
    var l := 0;
    while l < |lines|
      invariant 0 <= l <= |lines| && done == Hashed(lines[..l], skipPathLines)
      invariant cr == EndsInCR(done) && h == Hash(Pending(done))
    {
      assert lines[..l + 1][..l] == lines[..l];
      if !(skipPathLines && PathLine(lines[l])) {
        h, cr := HashLine(h, cr, lines[l], done);
        done := done + lines[l];
      }
      l := l + 1;
    }
    assert lines[..|lines|] == lines;
    PendingEnd(done);
    if cr {
      HashSnoc(Pending(done), CR);
      h := Step(h, CR);
    }
  }

  /** The inner loop over one line. */
  method HashLine(h0: nat, cr0: bool, line: Text, ghost done: Text) returns (h: nat, cr: bool)
    requires cr0 == EndsInCR(done) && h0 == Hash(Pending(done))
    ensures cr == EndsInCR(done + line) && h == Hash(Pending(done + line))
  {
    hide Pending, EndsInCR, Hash;
    h, cr := h0, cr0;
    var i := 0;
    assert done + line[..0] == done;
    while i < |line|
      invariant 0 <= i <= |line|
      invariant cr == EndsInCR(done + line[..i]) && h == Hash(Pending(done + line[..i]))
    {
      h, cr := HashByte(h, cr, line[i], done + line[..i]);
      assert done + line[..i + 1] == done + line[..i] + [line[i]];
      i := i + 1;
    }
    assert line[..|line|] == line;
  }

  /** One turn of the inner loop. */
  method HashByte(h0: nat, cr0: bool, c: char, ghost done: Text) returns (h: nat, cr: bool)
    requires cr0 == EndsInCR(done) && h0 == Hash(Pending(done))
    ensures cr == EndsInCR(done + [c]) && h == Hash(Pending(done + [c]))
  {
    h, cr := h0, cr0;
    PendingSnoc(done, c);
    if c == CR {
      cr := true;
      return;
    } else if c == LF && cr {
      cr := false;
    } else if cr {
      cr := false;
      HashSnoc(Pending(done), CR);
      h := Step(h, CR);
      HashSnoc(Pending(done) + [CR], c);
      h := Step(h, c);
      return;
    }
    HashSnoc(Pending(done), c);
    h := Step(h, c);
  }

  /** The lines put back together. */
  function Flatten(lines: seq<Text>): Text {
    if lines == [] then [] else lines[0] + Flatten(lines[1..])
  }

  /** Every line counts where it stands, but for the path lines when these are to be skipped. */
  lemma {:induction false} HashedLine(before: seq<Text>, line: Text, after: seq<Text>, skip: bool)
    ensures Hashed(before + [line] + after, skip)
            == Hashed(before, skip) + (if skip && PathLine(line) then [] else line) + Hashed(after, skip)
    decreases |after|
  {
    var lines, n := before + [line] + after, |after| - 1;
    if n < 0 {
      assert lines == before + [line] && lines[..|before|] == before;
    } else {
      assert lines[..|lines| - 1] == before + [line] + after[..n] && lines[|lines| - 1] == after[n];
      HashedLine(before, line, after[..n], skip);
    }
  }

  lemma NoLines()
    ensures forall skip :: Hashed([], skip) == []
  {
  }

  lemma {:induction false} NothingSkipped(lines: seq<Text>)
    ensures Hashed(lines, false) == Flatten(lines)
  {
    if lines == [] {
    } else {
      hide Hashed, PathLine;
      NothingSkipped(lines[1..]);
      FirstLine(lines[0], lines[1..]);
      assert lines == [lines[0]] + lines[1..];
    }
  }

  lemma FirstLine(line: Text, after: seq<Text>)
    ensures Hashed([line] + after, false) == line + Hashed(after, false)
  {
    hide Hashed, PathLine;
    HashedLine([], line, after, false);
    NoLines();
    assert [] + [line] + after == [line] + after;
    assert [] + line + Hashed(after, false) == line + Hashed(after, false);
  }

  /** The promise: with no lines skipped, any way of reading a text and its DOS version gives one value. */
  lemma SameHashUnixDos(unix: seq<Text>, dos: seq<Text>)
    requires Flatten(dos) == ToDos(Flatten(unix))
    ensures Hash(Canon(Hashed(dos, false))) == Hash(Canon(Hashed(unix, false)))
  {
    NothingSkipped(unix);
    NothingSkipped(dos);
    CanonIgnoresLineEnds(Flatten(unix));
  }

  // ---- what the hash tells apart ----

  function Byte(c: char): nat { c as int % 256 }

  /** The bytes as the digits of a number in base 33, after a leading 5381. */
  function Horner(s: Text): nat {
    if s == [] then 5381 else 33 * Horner(s[..|s| - 1]) + Byte(s[|s| - 1])
  }

  const WORD := 0x1_0000_0000

  lemma {:induction false} HashIsHorner(s: Text)
    ensures Hash(s) == Horner(s) % WORD
  {
    if s == [] {
    } else {
      var n := |s| - 1;
      HashIsHorner(s[..n]);
      var x, h, b := Horner(s[..n]), Hash(s[..n]), Byte(s[n]);
      assert x == (x / WORD) * WORD + h;
      Remainder(33 * x + b, 33 * (x / WORD), 33 * h + b);
      var low := (h * 32) % WORD;
      assert h * 32 == (h * 32 / WORD) * WORD + low;
      Remainder(33 * h + b, h * 32 / WORD, h + low + b);
    }
  }

  lemma Remainder(x: int, q: int, r: int)
    requires x == q * WORD + r
    ensures x % WORD == r % WORD
  {
    assert r == (r / WORD) * WORD + r % WORD;
    assert x == (q + r / WORD) * WORD + r % WORD;
  }

  /** A change of one byte is always seen: texts that differ in a single place have different values. */
  lemma {:induction false} OneByteSeen(s: Text, i: nat, c: char)
    requires i < |s| && Byte(c) != Byte(s[i])
    ensures Hash(s[i := c]) != Hash(s)
    decreases |s|
  {
    hide Step, Hash, Byte;
    var n := |s| - 1;
    var t := s[i := c];
    HashSnoc(s[..n], s[n]);
    HashSnoc(t[..n], t[n]);
    assert s == s[..n] + [s[n]] && t == t[..n] + [t[n]];
    HashBelow(s[..n]);
    HashBelow(t[..n]);
    if i < n {
      assert t[..n] == s[..n][i := c];
      OneByteSeen(s[..n], i, c);
      StepInjective(Hash(s[..n]), Hash(t[..n]), s[n]);
    } else {
      assert t[..n] == s[..n];
      StepSeesByte(Hash(s[..n]), s[n], c);
    }
  }

  lemma HashBelow(s: Text)
    ensures Hash(s) < WORD
  {
  }

  lemma StepIs(h: nat, c: char)
    ensures Step(h, c) == (33 * h + Byte(c)) % WORD
  {
    var low := (h * 32) % WORD;
    assert h * 32 == (h * 32 / WORD) * WORD + low;
    Remainder(33 * h + Byte(c), h * 32 / WORD, h + low + Byte(c));
  }

  /** 33 is odd, so it has an inverse modulo 2^32. */
  lemma StepInjective(h: nat, h': nat, c: char)
    requires h < WORD && h' < WORD
    ensures Step(h, c) == Step(h', c) ==> h == h'
  {
    StepIs(h, c);
    StepIs(h', c);
    hide Step, Byte;
    if Step(h, c) == Step(h', c) {
      var m := SameResidue(33 * h + Byte(c), 33 * h' + Byte(c));
      Inverse(h - h', m);
    }
  }

  lemma Inverse(d: int, m: int)
    requires 33 * d == m * WORD && -WORD < d < WORD
    ensures d == 0
  {
    var inverse := 1041204193;
    assert 33 * inverse == 8 * WORD + 1;
    assert d == (m * inverse - 8 * d) * WORD;
  }

  lemma SameResidue(x: int, y: int) returns (m: int)
    requires x % WORD == y % WORD
    ensures x - y == m * WORD
    ensures x == y || x - y >= WORD || y - x >= WORD
  {
    m := x / WORD - y / WORD;
  }

  lemma StepSeesByte(h: nat, c: char, c': char)
    ensures Step(h, c) == Step(h, c') ==> Byte(c) == Byte(c')
  {
    hide Step;
    StepIs(h, c);
    StepIs(h, c');
    if Step(h, c) == Step(h, c') {
      var m := SameResidue(33 * h + Byte(c), 33 * h + Byte(c'));
    }
  }

  /** The line has the mark after its first `from` bytes. */
  ghost predicate HasAt(line: Text, from: nat, mark: Text) {
    exists p, rest :: |p| == from && line == p + mark + rest
  }

  lemma SliceReads(line: Text, from: nat, mark: Text)
    requires mark != []
    ensures Slice(line, from, |mark|) == mark <==> HasAt(line, from, mark)
  {
    if Slice(line, from, |mark|) == mark {
      assert line == line[..from] + mark + line[from + |mark|..];
    }
    if p, rest :| |p| == from && line == p + mark + rest {
      assert line[from..from + |mark|] == mark;
    }
  }

  /** The lines left out: those of more than 14 bytes that name a path after a two-byte comment mark, or include a
      file. */
  lemma SkippedExactlyWhen(line: Text)
    ensures PathLine(line) <==>
            |line| > 14 && (HasAt(line, 2, " sch_path: ") || HasAt(line, 2, " sym_path: ")
                            || HasAt(line, 0, ".include ") || HasAt(line, 0, ".INCLUDE "))
  {
    hide Slice, HasAt;
    SliceReads(line, 2, " sch_path: ");
    SliceReads(line, 2, " sym_path: ");
    SliceReads(line, 0, ".include ");
    SliceReads(line, 0, ".INCLUDE ");
  }
}
