/**
 * The `Content-Range` header the worker attaches to a partial read
 * (`rangeHeader` in index.ts): R2's range descriptor for the object that was
 * read, turned into `bytes first-last/complete` with inclusive positions, as
 * section 14.4 of RFC 9110 defines the header.
 */
module ContentRangeHeader {
  import opened Wrappers
  import opened Strings

  /** R2's range descriptor: an offset and a length, either of which may be missing, or a trailing suffix length. */
  datatype R2Range = OffsetLength(offset: Option<nat>, length: Option<nat>) | Suffix(suffix: nat)

  /**
   * The three numbers of a `Content-Range` header. The first and last
   * positions are integers: a descriptor that runs past the object, or an
   * empty object, yields values outside the object.
   */
  datatype ContentRange = ContentRange(first: int, last: int, completeLength: nat)

  /** The descriptor selects bytes that all lie inside an object of `objLen` bytes. */
  predicate Honoured(objLen: nat, r: R2Range) {
    match r
    case OffsetLength(offset, length) =>
      offset.GetOr(0) <= objLen && (length.Some? ==> offset.GetOr(0) + length.value <= objLen)
    case Suffix(n) => n <= objLen
  }

  /** How many bytes the descriptor selects from an object of `objLen` bytes. */
  function ByteCount(objLen: nat, r: R2Range): int {
    match r
    case OffsetLength(offset, length) => if length.Some? then length.value else objLen - offset.GetOr(0)
    case Suffix(n) => n
  }

  /**
   * The range a descriptor denotes: it starts at the offset (0 without one)
   * and spans the length (the rest of the object without one); a suffix of
   * `n` bytes is the last `n` bytes. When the descriptor is honoured the
   * positions are inside the object and the inclusive span holds exactly the
   * selected bytes.
   */
  function SelectedRange(objLen: nat, r: R2Range): (cr: ContentRange)
    ensures cr.completeLength == objLen
    ensures r == OffsetLength(None, None) ==> cr.first == 0 && cr.last == objLen - 1
    ensures r.OffsetLength? ==> cr.first == r.offset.GetOr(0)
    ensures r.OffsetLength? && r.length.None? ==> cr.last == objLen - 1
    ensures r.OffsetLength? && r.length.Some? ==> cr.last == r.offset.GetOr(0) + r.length.value - 1
    ensures r.Suffix? ==> cr.first == objLen - r.suffix && cr.last == objLen - 1
    ensures Honoured(objLen, r) ==>
      0 <= cr.first && cr.last <= objLen - 1 && cr.last - cr.first + 1 == ByteCount(objLen, r)
  {
    match r
    case OffsetLength(offset, length) =>
      var first := offset.GetOr(0);
      ContentRange(first, if length.Some? then first + length.value - 1 else objLen - 1, objLen)
    case Suffix(n) => ContentRange(objLen - n, objLen - 1, objLen)
  }

  /** A satisfiable byte range in the sense of section 14.4 of RFC 9110: first <= last < complete length. */
  predicate Satisfiable(cr: ContentRange) {
    0 <= cr.first <= cr.last < cr.completeLength
  }

  /** An honoured descriptor gives a satisfiable `Content-Range` exactly when it selects at least one byte. */
  lemma HonouredIsSatisfiable(objLen: nat, r: R2Range)
    requires Honoured(objLen, r)
    ensures Satisfiable(SelectedRange(objLen, r)) <==> ByteCount(objLen, r) > 0
  {
  }

  /** The header text `bytes first-last/complete`, numbers written as JavaScript writes them. */
  function FormatContentRange(cr: ContentRange): string {
    "bytes " + (IntToString(cr.first) + ("-" + (IntToString(cr.last) + ("/" + NatToString(cr.completeLength)))))
  }

  /** Reads `/complete` at the end of a header text. */
  function ParseCompleteLength(s: string): Option<nat> {
    if |s| == 0 || s[0] != '/' then None
    else
      var complete := ParseNat(s[1..]);
      if complete.None? || complete.value.1 != [] then None else Some(complete.value.0)
  }

  /** Reads `-last/complete` after the first position of a header text. */
  function ParseLastAndLength(s: string): Option<(int, nat)> {
    if |s| == 0 || s[0] != '-' then None
    else
      var last := ParseInt(s[1..]);
      if last.None? then None
      else
        var complete := ParseCompleteLength(last.value.1);
        if complete.None? then None else Some((last.value.0, complete.value))
  }

  /** Reads a header text of the form `bytes first-last/complete` back into its three numbers. */
  function ParseContentRange(s: string): Option<ContentRange> {
    if |s| < 6 || s[..6] != "bytes " then None
    else
      var first := ParseInt(s[6..]);
      if first.None? then None
      else
        var tail := ParseLastAndLength(first.value.1);
        if tail.None? then None else Some(ContentRange(first.value.0, tail.value.0, tail.value.1))
  }

  lemma ParseCompleteLengthOf(completeLength: nat)
    ensures ParseCompleteLength("/" + NatToString(completeLength)) == Some(completeLength)
  {
    var digits := NatToString(completeLength);
    var s := "/" + digits;
    assert s[1..] == digits + [];
    ParseNatToString(completeLength, []);
  }

  lemma ParseLastAndLengthOf(last: int, completeLength: nat)
    ensures ParseLastAndLength("-" + (IntToString(last) + ("/" + NatToString(completeLength))))
      == Some((last, completeLength))
  {
    var afterLast := "/" + NatToString(completeLength);
    var s := "-" + (IntToString(last) + afterLast);
    assert s[1..] == IntToString(last) + afterLast;
    ParseIntToString(last, afterLast);
    ParseCompleteLengthOf(completeLength);
  }

  /** The header text determines the range it was written from. */
  lemma ParseFormatContentRange(cr: ContentRange)
    ensures ParseContentRange(FormatContentRange(cr)) == Some(cr)
  {
    var afterFirst := "-" + (IntToString(cr.last) + ("/" + NatToString(cr.completeLength)));
    var s := "bytes " + (IntToString(cr.first) + afterFirst);
    assert s[..6] == "bytes ";
    assert s[6..] == IntToString(cr.first) + afterFirst;
    ParseIntToString(cr.first, afterFirst);
    ParseLastAndLengthOf(cr.last, cr.completeLength);
  }

  /**
   * `rangeHeader`: the start defaults to 0 and the end to the last byte; an
   * offset moves the start, a length then fixes the end relative to the start,
   * and a suffix moves the start to that many bytes before the end. The header
   * it writes reads back as the range the descriptor selects.
   */
  method RangeHeader(objLen: nat, r2Range: R2Range) returns (header: string)
    ensures ParseContentRange(header) == Some(SelectedRange(objLen, r2Range))
    ensures header == FormatContentRange(SelectedRange(objLen, r2Range))
  {
    var startIndexInclusive: int := 0;
    var endIndexInclusive: int := objLen - 1;
    if r2Range.OffsetLength? && r2Range.offset.Some? {
      startIndexInclusive := r2Range.offset.value;
    }
    if r2Range.OffsetLength? && r2Range.length.Some? {
      endIndexInclusive := startIndexInclusive + r2Range.length.value - 1;
    }
    if r2Range.Suffix? {
      startIndexInclusive := objLen - r2Range.suffix;
    }
    var range := ContentRange(startIndexInclusive, endIndexInclusive, objLen);
    assert range == SelectedRange(objLen, r2Range);
    header := FormatContentRange(range);
    ParseFormatContentRange(range);
  }

  /** The complete length of the two examples below. */
  lemma ThousandText()
    ensures NatToString(1000) == "1000"
  {
    assert NatToString(1) == "1";
    assert NatToString(10) == NatToString(1) + "0";
    assert NatToString(100) == NatToString(10) + "0";
  }

  /** An object of 1000 bytes read at offset 200 for 300 bytes. */
  lemma OffsetLengthExample()
    ensures FormatContentRange(SelectedRange(1000, OffsetLength(Some(200), Some(300)))) == "bytes 200-499/1000"
  {
    assert NatToString(2) == "2";
    assert NatToString(20) == NatToString(2) + "0";
    assert NatToString(200) == "200";
    assert NatToString(4) == "4";
    assert NatToString(49) == NatToString(4) + "9";
    assert NatToString(499) == "499";
    ThousandText();
  }

  /** The last 100 bytes of an object of 1000 bytes. */
  lemma SuffixExample()
    ensures FormatContentRange(SelectedRange(1000, Suffix(100))) == "bytes 900-999/1000"
  {
    assert NatToString(9) == "9";
    assert NatToString(90) == NatToString(9) + "0";
    assert NatToString(900) == "900";
    assert NatToString(99) == NatToString(9) + "9";
    assert NatToString(999) == "999";
    ThousandText();
  }
}
