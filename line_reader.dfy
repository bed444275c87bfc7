/**
 * Reading text the way the watcher's file handle does, and cleaning a line
 * before delivery.
 *
 * The handle comes from `codecs.open`, whose stream reader ends a line at any
 * of the boundaries `str.splitlines` knows (with "\r\n" taken as one) and
 * keeps the terminator; at end of file it returns the unterminated tail.
 * Cleaning strips U+FEFF from both ends of a line, then whitespace, with
 * Python's whitespace set.
 */
module LineReader {

  const BYTE_ORDER_MARK: char := '\U{FEFF}'

  /** The characters Python's `str.isspace()` accepts (U+FEFF is not among them). */
  predicate IsSpace(c: char) {
    ('\t' <= c <= '\r') || ('\U{1C}' <= c <= '\U{1F}') || c == ' ' || c == '\U{85}'
    || c == '\U{A0}' || c == '\U{1680}' || ('\U{2000}' <= c <= '\U{200A}')
    || c == '\U{2028}' || c == '\U{2029}' || c == '\U{202F}' || c == '\U{205F}'
    || c == '\U{3000}'
  }

  /** The line boundaries of `str.splitlines`. */
  predicate IsLineBreak(c: char) {
    c == '\n' || c == '\r' || c == '\U{0B}' || c == '\U{0C}' || ('\U{1C}' <= c <= '\U{1E}')
    || c == '\U{85}' || c == '\U{2028}' || c == '\U{2029}'
  }

  predicate IsBom(c: char) {
    c == BYTE_ORDER_MARK
  }

  /** What a strip removes: U+FEFF for `strip('\ufeff')`, whitespace for `strip()`. */
  datatype Strippable = Marks | Whitespace

  predicate Removes(cls: Strippable, c: char) {
    match cls
    case Marks => IsBom(c)
    case Whitespace => IsSpace(c)
  }

  predicate NoBreak(s: string) {
    forall k :: 0 <= k < |s| ==> !IsLineBreak(s[k])
  }

  // ---------------------------------------------------------------------------
  // readline
  // ---------------------------------------------------------------------------

  /** Length of the line terminator a line ends with: 2 for "\r\n", 1 for another boundary, else 0. */
  function TerminatorLength(line: string): (t: nat)
    ensures t <= |line|
  {
    if |line| >= 2 && line[|line| - 2] == '\r' && line[|line| - 1] == '\n' then 2
    else if |line| >= 1 && IsLineBreak(line[|line| - 1]) then 1
    else 0
  }

  /**
   * What one `readline` starting at `pos` may return, stated independently of
   * how it is computed: a non-empty piece of `s` at `pos`, with no boundary
   * before its terminator, unterminated only at end of file, and a final "\r"
   * only when no "\n" follows it.
   */
  ghost predicate IsNextLine(s: string, pos: nat, line: string) {
    && line != []
    && pos + |line| <= |s|
    && line == s[pos..pos + |line|]
    && NoBreak(line[..|line| - TerminatorLength(line)])
    && (TerminatorLength(line) == 0 ==> pos + |line| == |s|)
    && (line[|line| - 1] == '\r' && pos + |line| < |s| ==> s[pos + |line|] != '\n')
  }

  /** Index of the first line boundary at or after `i`, or `|s|` when there is none. */
  function BodyEnd(s: string, i: nat): (e: nat)
    requires i <= |s|
    ensures i <= e <= |s|
    ensures forall k :: i <= k < e ==> !IsLineBreak(s[k])
    ensures e < |s| ==> IsLineBreak(s[e])
    decreases |s| - i
  {
    if i == |s| || IsLineBreak(s[i]) then i else BodyEnd(s, i + 1)
  }

  /** The position after the line that starts at `pos`, terminator included. */
  function LineEnd(s: string, pos: nat): (j: nat)
    requires pos < |s|
    ensures pos < j <= |s|
  {
    var e := BodyEnd(s, pos);
    if e == |s| then e
    else if s[e] == '\r' && e + 1 < |s| && s[e + 1] == '\n' then e + 2
    else e + 1
  }

  /** `f.readline()` on a handle positioned at `pos` over the text `s`; "" at or past the end. */
  function ReadLine(s: string, pos: nat): (line: string)
    ensures pos >= |s| ==> line == []
    ensures pos < |s| ==> line != [] && pos + |line| <= |s| && line == s[pos..pos + |line|]
  {
    if pos >= |s| then [] else s[pos..LineEnd(s, pos)]
  }

  /** The terminator readline keeps is what lies between the first boundary and the line's end. */
  lemma TerminatorIsBoundary(s: string, pos: nat)
    requires pos < |s|
    ensures TerminatorLength(ReadLine(s, pos)) == LineEnd(s, pos) - BodyEnd(s, pos)
  {
    var e := BodyEnd(s, pos);
    var j := LineEnd(s, pos);
    var line := ReadLine(s, pos);
    assert line == s[pos..j];
    if e == |s| {
      assert line[|line| - 1] == s[|s| - 1];
      assert !IsLineBreak(s[|s| - 1]);
      assert TerminatorLength(line) == 0;
    } else if j == e + 2 {
      assert line[|line| - 2] == s[e] && line[|line| - 1] == s[e + 1];
      assert TerminatorLength(line) == 2;
    } else {
      assert j == e + 1;
      assert line[|line| - 1] == s[e];
      if |line| >= 2 {
        assert line[|line| - 2] == s[e - 1];
        assert !IsLineBreak(s[e - 1]);
      }
      assert TerminatorLength(line) == 1;
    }
  }

  /** What readline returns before end of file is the next line, as `IsNextLine` describes it. */
  lemma ReadLineIsNextLine(s: string, pos: nat)
    requires pos < |s|
    ensures IsNextLine(s, pos, ReadLine(s, pos))
  {
    var e := BodyEnd(s, pos);
    var j := LineEnd(s, pos);
    var line := ReadLine(s, pos);
    assert line == s[pos..j];
    TerminatorIsBoundary(s, pos);
    var body := line[..|line| - TerminatorLength(line)];
    assert body == s[pos..e];
    forall k | 0 <= k < |body| ensures !IsLineBreak(body[k]) {
      assert body[k] == s[pos + k];
    }
    assert line[|line| - 1] == s[j - 1];
  }

  /** The description fixes the line: whatever meets `IsNextLine` at `pos` is what readline returns there. */
  lemma NextLineIsReadLine(s: string, pos: nat, a: string)
    requires IsNextLine(s, pos, a)
    ensures a == ReadLine(s, pos)
  {
    var t := TerminatorLength(a);
    var m := |a| - t;
    var e := BodyEnd(s, pos);
    var j := LineEnd(s, pos);
    forall k | pos <= k < pos + m ensures !IsLineBreak(s[k]) {
      assert s[k] == a[..m][k - pos];
    }
    assert e >= pos + m;
    if t == 0 {
      assert e == |s|;
    } else {
      assert a[m] == s[pos + m];
      assert IsLineBreak(a[m]);
      assert e == pos + m;
      if t == 2 {
        assert a[m + 1] == s[e + 1];
        assert j == e + 2;
      } else {
        assert a[|a| - 1] == s[e];
        assert j == e + 1;
      }
    }
    assert j == pos + |a|;
  }

  /** An unterminated tail is read whole; a later read from inside a line stops after its terminator. */
  lemma ReadLineExamples()
    ensures ReadLine("ab", 0) == "ab"
    ensures ReadLine("abc\n", 2) == "c\n"
  {
    assert BodyEnd("ab", 1) == 2;
    assert BodyEnd("ab", 0) == 2;
    assert BodyEnd("abc\n", 3) == 3;
    assert BodyEnd("abc\n", 2) == 3;
  }

  /** With no boundary left, readline returns the tail of the file without a terminator. */
  lemma UnterminatedTail(s: string, pos: nat)
    requires pos < |s| && BodyEnd(s, pos) == |s|
    ensures TerminatorLength(ReadLine(s, pos)) == 0
  {
    var line := ReadLine(s, pos);
    assert line == s[pos..];
    assert line[|line| - 1] == s[|s| - 1];
    assert !IsLineBreak(line[|line| - 1]);
  }

  /** The first boundary after `i` is found again once text is appended behind it. */
  lemma {:induction false} BodyEndSurvivesAppend(s: string, extra: string, i: nat)
    requires i <= |s| && BodyEnd(s, i) < |s|
    ensures BodyEnd(s + extra, i) == BodyEnd(s, i)
    decreases |s| - i
  {
    assert (s + extra)[i] == s[i];
    if !IsLineBreak(s[i]) {
      BodyEndSurvivesAppend(s, extra, i + 1);
    }
  }

  /**
   * A complete line (one with a terminator, and not a "\r" that a "\n" could
   * still join) reads the same after the file has grown.
   */
  lemma {:induction false} CompleteLineSurvivesAppend(s: string, extra: string, pos: nat)
    requires pos < |s|
    requires TerminatorLength(ReadLine(s, pos)) > 0
    requires ReadLine(s, pos)[|ReadLine(s, pos)| - 1] == '\r' ==> pos + |ReadLine(s, pos)| < |s|
    ensures ReadLine(s + extra, pos) == ReadLine(s, pos)
  {
    var line := ReadLine(s, pos);
    var e := BodyEnd(s, pos);
    var j := LineEnd(s, pos);
    assert line == s[pos..j];
    if e == |s| {
      UnterminatedTail(s, pos);
      assert false;
    }
    BodyEndSurvivesAppend(s, extra, pos);
    var s' := s + extra;
    assert s'[e] == s[e];
    if j == e + 1 && s[e] == '\r' {
      assert line[|line| - 1] == '\r';
      assert s'[e + 1] == s[e + 1];
    } else if j == e + 2 {
      assert s'[e + 1] == s[e + 1];
    }
    assert LineEnd(s', pos) == j;
    assert s'[pos..j] == s[pos..j];
  }

  /** `f.readlines()`: the lines from `pos` on, by repeated readline. */
  function Lines(s: string, pos: nat): (ls: seq<string>)
    ensures ls == [] <==> pos >= |s|
    ensures pos <= |s| ==> |ls| <= |s| - pos
    decreases |s| - pos
  {
    if pos >= |s| then []
    else [s[pos..LineEnd(s, pos)]] + Lines(s, LineEnd(s, pos))
  }

  function Concat(ls: seq<string>): string {
    if ls == [] then [] else ls[0] + Concat(ls[1..])
  }

  /** Concatenation distributes over appending one more string. */
  lemma {:induction false} ConcatSnoc(ls: seq<string>, x: string)
    ensures Concat(ls + [x]) == Concat(ls) + x
  {
    if ls != [] {
      assert (ls + [x])[1..] == ls[1..] + [x];
      ConcatSnoc(ls[1..], x);
    }
  }

  lemma {:induction false} ConcatAppend(a: seq<string>, b: seq<string>)
    ensures Concat(a + b) == Concat(a) + Concat(b)
  {
    if a == [] {
      assert a + b == b;
    } else {
      assert (a + b)[1..] == a[1..] + b;
      ConcatAppend(a[1..], b);
    }
  }

  /**
   * Reading line by line neither skips nor repeats text: together the lines
   * are exactly the text from `pos` to the end.
   */
  lemma {:induction false} LinesTile(s: string, pos: nat)
    requires pos <= |s|
    ensures Concat(Lines(s, pos)) == s[pos..]
    decreases |s| - pos
  {
    if pos < |s| {
      var next := LineEnd(s, pos);
      LinesTile(s, next);
      var ls := Lines(s, pos);
      assert ls[1..] == Lines(s, next);
      assert s[pos..] == s[pos..next] + s[next..];
    }
  }

  /** Where the i-th line of `readlines` from `pos` starts. */
  function LineStart(s: string, pos: nat, i: nat): nat
    requires i < |Lines(s, pos)|
    decreases i
  {
    if i == 0 then pos else LineStart(s, LineEnd(s, pos), i - 1)
  }

  /** Each line of `readlines` is what readline returns where that line starts. */
  lemma {:induction false} LineIsReadAtItsStart(s: string, pos: nat, i: nat)
    requires i < |Lines(s, pos)|
    ensures LineStart(s, pos, i) < |s|
    ensures Lines(s, pos)[i] == ReadLine(s, LineStart(s, pos, i))
    decreases i
  {
    if i > 0 {
      LineIsReadAtItsStart(s, LineEnd(s, pos), i - 1);
    }
  }

  /** The i-th line starts right after the first `i` lines. */
  lemma {:induction false} LineStartIsPrefixLength(s: string, pos: nat, i: nat)
    requires i < |Lines(s, pos)|
    ensures LineStart(s, pos, i) == pos + |Concat(Lines(s, pos)[..i])|
    decreases i
  {
    var ls := Lines(s, pos);
    if i == 0 {
      assert ls[..0] == [];
    } else {
      var next := LineEnd(s, pos);
      var rest := Lines(s, next);
      LineStartIsPrefixLength(s, next, i - 1);
      assert ls[..i] == [ls[0]] + rest[..i - 1];
      assert ([ls[0]] + rest[..i - 1])[1..] == rest[..i - 1];
      assert |ls[0]| == next - pos;
    }
  }

  /**
   * Each line is what readline returns at the offset just past the lines
   * before it (`LineStart`), so none is empty.
   */
  lemma LinesAreReadLines(s: string, pos: nat, i: nat)
    requires i < |Lines(s, pos)|
    ensures LineStart(s, pos, i) == pos + |Concat(Lines(s, pos)[..i])| < |s|
    ensures Lines(s, pos)[i] == ReadLine(s, LineStart(s, pos, i))
    ensures Lines(s, pos)[i] != []
  {
    LineIsReadAtItsStart(s, pos, i);
    LineStartIsPrefixLength(s, pos, i);
  }

  // ---------------------------------------------------------------------------
  // strip
  // ---------------------------------------------------------------------------

  /** Index of the first character at or after `i` that a strip keeps (`|s|` if none). */
  function StripLo(s: string, cls: Strippable, i: nat): (lo: nat)
    requires i <= |s|
    ensures i <= lo <= |s|
    ensures forall k :: i <= k < lo ==> Removes(cls, s[k])
    ensures lo < |s| ==> !Removes(cls, s[lo])
    decreases |s| - i
  {
    if i == |s| || !Removes(cls, s[i]) then i else StripLo(s, cls, i + 1)
  }

  /** Index just after the last character before `j` that a strip keeps, not going below `lo`. */
  function StripHi(s: string, cls: Strippable, lo: nat, j: nat): (hi: nat)
    requires lo <= j <= |s|
    ensures lo <= hi <= j
    ensures forall k :: hi <= k < j ==> Removes(cls, s[k])
    ensures hi > lo ==> !Removes(cls, s[hi - 1])
    decreases j
  {
    if j == lo || !Removes(cls, s[j - 1]) then j else StripHi(s, cls, lo, j - 1)
  }

  /** `s.strip(chars)`: the piece of `s` left once `cls`-characters are removed from both ends. */
  function Strip(s: string, cls: Strippable): (r: string)
    ensures r != [] ==> !Removes(cls, r[0]) && !Removes(cls, r[|r| - 1])
  {
    var lo := StripLo(s, cls, 0);
    var hi := StripHi(s, cls, lo, |s|);
    assert lo < |s| ==> hi > lo;
    s[lo..hi]
  }

  /** A strip leaves nothing exactly when every character is one it removes. */
  lemma StripEmpty(s: string, cls: Strippable)
    ensures Strip(s, cls) == [] <==> forall k :: 0 <= k < |s| ==> Removes(cls, s[k])
  {
    var lo := StripLo(s, cls, 0);
    var hi := StripHi(s, cls, lo, |s|);
    assert lo < |s| ==> hi > lo;
  }

  /** A strip keeps a piece of `s`, starting at the first character it does not remove. */
  lemma StripIsInfix(s: string, cls: Strippable) returns (lo: nat)
    ensures lo == StripLo(s, cls, 0)
    ensures lo + |Strip(s, cls)| <= |s| && Strip(s, cls) == s[lo..lo + |Strip(s, cls)|]
  {
    lo := StripLo(s, cls, 0);
  }

  /** What a strip removed after the piece it kept is all `cls`-characters. */
  lemma StripDropsSuffix(s: string, cls: Strippable)
    ensures StripLo(s, cls, 0) + |Strip(s, cls)| <= |s|
    ensures forall k :: StripLo(s, cls, 0) + |Strip(s, cls)| <= k < |s| ==> Removes(cls, s[k])
  {
  }

  /** The cleaning at log_watcher.py:82: drop U+FEFF from both ends, then whitespace. */
  function Clean(raw: string): (line: string)
    ensures line != [] ==> !IsSpace(line[0]) && !IsSpace(line[|line| - 1])
    ensures |line| <= |raw|
  {
    Strip(Strip(raw, Marks), Whitespace)
  }

  /** A piece of a piece of `s` is a piece of `s`. */
  lemma SliceOfSlice(s: string, b: string, r: string, ib: nat, jr: nat)
    requires ib + |b| <= |s| && b == s[ib..ib + |b|]
    requires jr + |r| <= |b| && r == b[jr..jr + |r|]
    ensures r == s[ib + jr..ib + jr + |r|]
  {
    forall j | 0 <= j < |r| ensures r[j] == s[ib + jr + j] {
      assert r[j] == b[jr + j];
    }
  }

  /** Where the cleaned line starts in the raw one. */
  function CleanStart(raw: string): nat {
    StripLo(raw, Marks, 0) + StripLo(Strip(raw, Marks), Whitespace, 0)
  }

  /** Cleaning keeps a piece of the raw line. */
  lemma CleanIsInfix(raw: string)
    ensures CleanStart(raw) + |Clean(raw)| <= |raw|
    ensures Clean(raw) == raw[CleanStart(raw)..CleanStart(raw) + |Clean(raw)|]
  {
    var b := Strip(raw, Marks);
    var ib := StripIsInfix(raw, Marks);
    var js := StripIsInfix(b, Whitespace);
    assert CleanStart(raw) == ib + js;
    SliceOfSlice(raw, b, Clean(raw), ib, js);
  }

  /** What cleaning drops before the kept piece is BOMs and whitespace. */
  lemma CleanDropsBlankPrefix(raw: string)
    ensures forall k :: 0 <= k < CleanStart(raw) ==> IsBom(raw[k]) || IsSpace(raw[k])
  {
    var b := Strip(raw, Marks);
    var ib := StripIsInfix(raw, Marks);
    var js := StripIsInfix(b, Whitespace);
    assert CleanStart(raw) == ib + js;
    forall k | 0 <= k < ib + js ensures IsBom(raw[k]) || IsSpace(raw[k]) {
      if k >= ib {
        assert raw[k] == b[k - ib];
        assert Removes(Whitespace, b[k - ib]);
      } else {
        assert Removes(Marks, raw[k]);
      }
    }
  }

  /** What cleaning drops after the kept piece is BOMs and whitespace. */
  lemma CleanDropsBlankSuffix(raw: string)
    ensures CleanStart(raw) + |Clean(raw)| <= |raw|
    ensures forall k :: CleanStart(raw) + |Clean(raw)| <= k < |raw| ==> IsBom(raw[k]) || IsSpace(raw[k])
  {
    var b := Strip(raw, Marks);
    var ib := StripIsInfix(raw, Marks);
    var js := StripIsInfix(b, Whitespace);
    var r := Clean(raw);
    assert CleanStart(raw) == ib + js;
    assert forall k :: ib + |b| <= k < |raw| ==> IsBom(raw[k]) by {
      StripDropsSuffix(raw, Marks);
    }
    StripDropsSuffix(b, Whitespace);
    SpaceTailOfPiece(raw, b, ib, js + |r|);
  }

  /** Whitespace at the end of a piece of `raw` is whitespace in `raw` itself. */
  lemma SpaceTailOfPiece(raw: string, b: string, ib: nat, e: nat)
    requires ib + |b| <= |raw| && b == raw[ib..ib + |b|]
    requires e <= |b| && forall k :: e <= k < |b| ==> Removes(Whitespace, b[k])
    ensures forall k :: ib + e <= k < ib + |b| ==> IsSpace(raw[k])
  {
    forall k | ib + e <= k < ib + |b| ensures IsSpace(raw[k]) {
      assert raw[k] == b[k - ib];
      assert Removes(Whitespace, b[k - ib]);
    }
  }

  lemma BreakIsSpace(c: char)
    ensures IsLineBreak(c) ==> IsSpace(c)
  {
  }

  /**
   * A delivered line is one text line: cleaning what readline returned leaves
   * no line boundary anywhere in it, and nothing at either end is whitespace.
   */
  lemma CleanedLineHasNoBreak(s: string, pos: nat)
    ensures NoBreak(Clean(ReadLine(s, pos)))
  {
    if pos < |s| {
      ReadLineIsNextLine(s, pos);
    }
    CleanedBodyHasNoBreak(ReadLine(s, pos));
  }

  /** A line with no boundary before its terminator has none left once cleaned. */
  lemma CleanedBodyHasNoBreak(line: string)
    requires NoBreak(line[..|line| - TerminatorLength(line)])
    ensures NoBreak(Clean(line))
  {
    var r := Clean(line);
    if r != [] {
      CleanIsInfix(line);
      var i := CleanStart(line);
      KeptPieceEndsBeforeTerminator(line, i, r);
      PieceOfBodyHasNoBreak(line, |line| - TerminatorLength(line), i, r);
    }
  }

  /** A piece of a line that lies within its first `m` characters, which hold no boundary, holds none either. */
  lemma PieceOfBodyHasNoBreak(line: string, m: nat, i: nat, r: string)
    requires m <= |line| && NoBreak(line[..m])
    requires i + |r| <= m && r == line[i..i + |r|]
    ensures NoBreak(r)
  {
    forall k | 0 <= k < |r| ensures !IsLineBreak(r[k]) {
      assert r[k] == line[..m][i + k];
    }
  }

  /** A piece of a line whose last character is not whitespace ends before the line's terminator. */
  lemma KeptPieceEndsBeforeTerminator(line: string, i: nat, r: string)
    requires r != [] && i + |r| <= |line| && r == line[i..i + |r|]
    requires !IsSpace(r[|r| - 1])
    ensures i + |r| <= |line| - TerminatorLength(line)
  {
    var last := i + |r| - 1;
    assert r[|r| - 1] == line[last];
    var t := TerminatorLength(line);
    if t == 2 {
      assert line[|line| - 2] == '\r' && line[|line| - 1] == '\n';
    } else if t == 1 {
      BreakIsSpace(line[|line| - 1]);
    }
  }

  /** A raw line made of whitespace only is never delivered. */
  lemma BlankLineIsDropped(raw: string)
    requires forall k :: 0 <= k < |raw| ==> IsSpace(raw[k])
    ensures Clean(raw) == []
  {
    var b := Strip(raw, Marks);
    var i := StripIsInfix(raw, Marks);
    forall k | 0 <= k < |b| ensures Removes(Whitespace, b[k]) {
      assert b[k] == raw[i + k];
    }
    StripEmpty(b, Whitespace);
  }

  /** Conversely, a line is dropped only when nothing but BOMs and whitespace was read. */
  lemma DroppedLineIsBlank(raw: string)
    requires Clean(raw) == []
    ensures forall k :: 0 <= k < |raw| ==> IsBom(raw[k]) || IsSpace(raw[k])
  {
    var b := Strip(raw, Marks);
    var i := StripIsInfix(raw, Marks);
    StripDropsSuffix(raw, Marks);
    StripEmpty(b, Whitespace);
    forall k | 0 <= k < |raw| ensures IsBom(raw[k]) || IsSpace(raw[k]) {
      if i <= k < i + |b| {
        assert raw[k] == b[k - i];
        assert Removes(Whitespace, b[k - i]);
      } else {
        assert Removes(Marks, raw[k]);
      }
    }
  }

  /** Cleaning keeps a plain line as it is and drops the terminator of a complete one. */
  lemma CleanExamples()
    ensures Clean("ab") == "ab"
    ensures Clean("c\n") == "c"
  {
    assert StripLo("ab", Marks, 0) == 0 && StripHi("ab", Marks, 0, 2) == 2;
    assert Strip("ab", Marks) == "ab";
    assert StripLo("ab", Whitespace, 0) == 0 && StripHi("ab", Whitespace, 0, 2) == 2;
    var raw := "c\n";
    assert StripLo(raw, Marks, 0) == 0 && StripHi(raw, Marks, 0, 2) == 2;
    assert Strip(raw, Marks) == raw;
    assert StripLo(raw, Whitespace, 0) == 0;
    assert StripHi(raw, Whitespace, 0, 1) == 1;
    assert StripHi(raw, Whitespace, 0, 2) == 1;
  }

  /**
   * Cleaning does not always remove a byte-order mark: once whitespace stands
   * before it, the BOM is inside the first strip and is kept.
   */
  lemma BomCanSurviveCleaning()
    ensures Clean(" \U{FEFF}a\n") == "\U{FEFF}a"
  {
    var raw := " \U{FEFF}a\n";
    assert StripLo(raw, Marks, 0) == 0;
    assert StripHi(raw, Marks, 0, 4) == 4;
    assert Strip(raw, Marks) == raw;
    assert StripLo(raw, Whitespace, 1) == 1;
    assert StripLo(raw, Whitespace, 0) == 1;
    assert StripHi(raw, Whitespace, 1, 3) == 3;
    assert StripHi(raw, Whitespace, 1, 4) == 3;
  }
}
