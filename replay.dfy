/**
 * The replay query `get_last_n_lines(n)`: an independent read pass over the
 * whole file that returns its last `n` lines, with Python's slicing rules.
 */
module Replay {
  import opened Wrappers
  import opened EncodingDetection
  import opened LineReader

  /** The log file as the replay's own read pass finds it. */
  datatype LogFile = Missing | Unreadable | Present(bytes: seq<byte>)

  /** Decoding the file's bytes with a codec; `None` is a decoding error. */
  type Decoder = (Encoding, seq<byte>) -> Option<string>

  function Min(a: int, b: int): int { if a <= b then a else b }
  function Max(a: int, b: int): int { if a >= b then a else b }

  /** Python's `xs[k:]`: a negative `k` counts from the end, and both are clamped. */
  function SliceFrom<T>(xs: seq<T>, k: int): (r: seq<T>)
    ensures |r| <= |xs| && r == xs[|xs| - |r|..]
    ensures k >= 0 ==> |r| == Max(0, |xs| - k)
    ensures k < 0 ==> |r| == Min(-k, |xs|)
  {
    if k >= 0 then xs[Min(k, |xs|)..] else xs[Max(0, |xs| + k)..]
  }

  /**
   * `lines[-n:] if len(lines) >= n else lines`. Always a suffix of the lines:
   * the last `min(n, len)` for positive `n`; every line for `n == 0`, since
   * `-0` is `0`; and for negative `n` the lines after the first `-n`.
   */
  function LastN<T>(lines: seq<T>, n: int): (r: seq<T>)
    ensures |r| <= |lines| && r == lines[|lines| - |r|..]
    ensures n > 0 ==> |r| == Min(n, |lines|)
    ensures n == 0 ==> r == lines
    ensures n < 0 ==> |r| == Max(0, |lines| + n)
  {
    if |lines| >= n then SliceFrom(lines, -n) else lines
  }

  /** The text the replay reads, when the file exists and decodes. */
  function ReplayText(file: LogFile, decode: Decoder): Option<string> {
    match file
    case Missing => None
    case Unreadable => None
    case Present(bytes) => decode(DetectEncoding(Some(bytes)), bytes)
  }

  /**
   * `get_last_n_lines(n)`: detect the encoding, read all lines (terminators
   * kept, nothing trimmed) and keep the last `n`. A missing file, a file that
   * cannot be opened and a decoding error all give the empty list. By
   * default the last ten lines are returned.
   */
  function GetLastNLines(file: LogFile, decode: Decoder, n: int := 10): (r: seq<string>)
    ensures file.Missing? || file.Unreadable? ==> r == []
    ensures file.Present? && decode(DetectEncoding(Some(file.bytes)), file.bytes).None? ==> r == []
    ensures ReplayText(file, decode).Some? ==> |r| <= |Lines(ReplayText(file, decode).value, 0)|
  {
    match ReplayText(file, decode)
    case None => []
    case Some(text) => LastN(Lines(text, 0), n)
  }

  lemma {:induction false} ConcatOfSuffix(ls: seq<string>, k: nat)
    requires k <= |ls|
    ensures Concat(ls) == Concat(ls[..k]) + Concat(ls[k..])
  {
    assert ls == ls[..k] + ls[k..];
    ConcatAppend(ls[..k], ls[k..]);
  }

  /**
   * What a replay returns is the end of the file, verbatim: joined together,
   * the lines are exactly the last characters of the decoded text, in file
   * order, and there are as many as `LastN` keeps of the file's lines.
   */
  lemma {:induction false} ReplayIsEndOfFile(file: LogFile, decode: Decoder, n: int)
    requires ReplayText(file, decode).Some?
    ensures var text := ReplayText(file, decode).value;
      var r := GetLastNLines(file, decode, n);
      && |Concat(r)| <= |text|
      && Concat(r) == text[|text| - |Concat(r)|..]
      && (n > 0 ==> |r| == Min(n, |Lines(text, 0)|))
      && (n == 0 ==> Concat(r) == text)
  {
    var text := ReplayText(file, decode).value;
    var ls := Lines(text, 0);
    var r := GetLastNLines(file, decode, n);
    var k := |ls| - |r|;
    LinesTile(text, 0);
    ConcatOfSuffix(ls, k);
    assert r == ls[k..];
    assert text[0..] == text;
  }

  /** Without `n`, a replay returns the last ten lines. */
  lemma DefaultReplayIsLastTen(file: LogFile, decode: Decoder)
    requires ReplayText(file, decode).Some?
    ensures GetLastNLines(file, decode) == GetLastNLines(file, decode, 10)
    ensures |GetLastNLines(file, decode)| == Min(10, |Lines(ReplayText(file, decode).value, 0)|)
  {
  }

  /** A file of fifteen lines replays its last ten for `n == 10` and all fifteen for `n == 20`. */
  lemma ReplayOfFifteenLines(lines: seq<string>)
    requires |lines| == 15
    ensures LastN(lines, 10) == lines[5..]
    ensures LastN(lines, 20) == lines
  {
  }
}
