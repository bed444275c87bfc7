/**
 * Choosing the text decoding of the log file from its leading bytes
 * (`LogWatcher._detect_encoding`). The byte-order marks are those of
 * section 6 of RFC 3629 (UTF-8) and section 3.2 of RFC 2781 (UTF-16).
 */
module EncodingDetection {
  import opened Wrappers

  newtype byte = b: int | 0 <= b < 0x100

  /** The four codec names the detector can return. */
  datatype Encoding = Utf16Le | Utf16Be | Utf8Sig | Utf8 {
    function CodecName(): string {
      match this
      case Utf16Le => "utf-16-le"
      case Utf16Be => "utf-16-be"
      case Utf8Sig => "utf-8-sig"
      case Utf8 => "utf-8"
    }
  }

  const BOM_UTF16_LE: seq<byte> := [0xFF, 0xFE]
  const BOM_UTF16_BE: seq<byte> := [0xFE, 0xFF]
  const BOM_UTF8: seq<byte> := [0xEF, 0xBB, 0xBF]

  /** How many bytes the detector reads: `f.read(4)`. */
  const HEAD_SIZE := 4

  predicate StartsWith(s: seq<byte>, prefix: seq<byte>) {
    |prefix| <= |s| && s[..|prefix|] == prefix
  }

  predicate HasMark(bytes: seq<byte>) {
    StartsWith(bytes, BOM_UTF16_LE) || StartsWith(bytes, BOM_UTF16_BE) || StartsWith(bytes, BOM_UTF8)
  }

  /** The bytes `f.read(4)` returns: at most the first four. */
  function Head(bytes: seq<byte>): (raw: seq<byte>)
    ensures |raw| <= HEAD_SIZE && raw <= bytes
    ensures |raw| == if |bytes| < HEAD_SIZE then |bytes| else HEAD_SIZE
  {
    if |bytes| <= HEAD_SIZE then bytes else bytes[..HEAD_SIZE]
  }

  /**
   * The detector. `None` is a file that does not exist (FileNotFoundError),
   * which yields plain UTF-8. The tests are made on the first four bytes only,
   * but since every mark is at most three bytes long the contract can speak of
   * the whole file; the three marks exclude each other, so each result holds
   * exactly when its mark is present.
   */
  function DetectEncoding(file: Option<seq<byte>>): (e: Encoding)
    ensures file.None? ==> e == Utf8
    ensures file.Some? ==> (e == Utf16Le <==> StartsWith(file.value, BOM_UTF16_LE))
    ensures file.Some? ==> (e == Utf16Be <==> StartsWith(file.value, BOM_UTF16_BE))
    ensures file.Some? ==> (e == Utf8Sig <==> StartsWith(file.value, BOM_UTF8))
    ensures e == Utf8 <==> (file.None? || !HasMark(file.value))
  {
    match file
    case None => Utf8
    case Some(bytes) =>
      var raw := Head(bytes);
      HeadKeepsMarks(bytes);
      if StartsWith(raw, BOM_UTF16_LE) then Utf16Le
      else if StartsWith(raw, BOM_UTF16_BE) then Utf16Be
      else if StartsWith(raw, BOM_UTF8) then Utf8Sig
      else Utf8
  }

  /** A mark of at most four bytes is at the start of the file iff it is at the start of its head. */
  lemma HeadKeepsMarks(bytes: seq<byte>)
    ensures StartsWith(Head(bytes), BOM_UTF16_LE) == StartsWith(bytes, BOM_UTF16_LE)
    ensures StartsWith(Head(bytes), BOM_UTF16_BE) == StartsWith(bytes, BOM_UTF16_BE)
    ensures StartsWith(Head(bytes), BOM_UTF8) == StartsWith(bytes, BOM_UTF8)
  {
    var raw := Head(bytes);
    assert raw[..|raw|] == bytes[..|raw|];
  }

  /** The mark a file written in encoding `e` begins with (none for plain UTF-8). */
  function Mark(e: Encoding): (m: seq<byte>)
    ensures |m| <= HEAD_SIZE
  {
    match e
    case Utf16Le => BOM_UTF16_LE
    case Utf16Be => BOM_UTF16_BE
    case Utf8Sig => BOM_UTF8
    case Utf8 => []
  }

  /**
   * Round trip: a file that starts with the mark of `e` is detected as `e`;
   * for plain UTF-8 the text must not itself begin with a mark.
   */
  lemma {:induction false} DetectMarkedFile(e: Encoding, rest: seq<byte>)
    requires e == Utf8 ==> !HasMark(rest)
    ensures DetectEncoding(Some(Mark(e) + rest)) == e
  {
    var bytes := Mark(e) + rest;
    assert bytes[..|Mark(e)|] == Mark(e);
  }

  /** A file the watcher creates empty is read as plain UTF-8, like a missing one. */
  lemma CreatedFileIsPlain()
    ensures DetectEncoding(Some([])) == DetectEncoding(None) == Utf8
  {
  }

  /** Only the first four bytes matter. */
  lemma {:induction false} DetectionReadsOnlyHead(a: seq<byte>, b: seq<byte>)
    requires Head(a) == Head(b)
    ensures DetectEncoding(Some(a)) == DetectEncoding(Some(b))
  {
    HeadKeepsMarks(a);
    HeadKeepsMarks(b);
  }

  /** The detector's answer is always one of the four codec names, "utf-8" when there is no mark. */
  lemma DetectedCodecIsKnown(file: Option<seq<byte>>)
    ensures DetectEncoding(file).CodecName() in ["utf-16-le", "utf-16-be", "utf-8-sig", "utf-8"]
    ensures DetectEncoding(file).CodecName() == "utf-8" <==> file.None? || !HasMark(file.value)
  {
    var e := DetectEncoding(file);
    assert e.CodecName() == "utf-8" <==> e == Utf8 by {
      assert "utf-16-le"[4] != "utf-8"[4];
      assert "utf-16-be"[4] != "utf-8"[4];
      assert "utf-8-sig" != "utf-8";
    }
  }
}
