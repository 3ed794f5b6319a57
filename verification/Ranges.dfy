/** The Range request header and the Content-Range response header. */
module Ranges {
  import opened Numbers
  import opened Wrappers
  import opened Decimals

  datatype RangeError = BadRequest | RangeNotSatisfiable

  // The two bounds as they are read: a bound that is no number counts as absent.
  datatype Bounds = Bounds(start: Option<nat>, end: Option<nat>)

  function ReadBounds(header: string): Result<Bounds, RangeError> {
    if !("bytes=" <= header) then Err(BadRequest)
    else
      var parts := Split(header[6..], '-');
      if |parts| != 2 then Err(BadRequest)
      else Ok(Bounds(ParseUnsigned(parts[0], U64), ParseUnsigned(parts[1], U64)))
  }

  function ParseRangeHeader(header: string, fileSize: u64): Result<(u64, u64), RangeError> {
    match ReadBounds(header)
    case Err(e) => Err(e)
    case Ok(Bounds(start, end)) =>
      if start.Some? && end.Some? && start.value <= end.value < fileSize then Ok((start.value, end.value))
      else if start.Some? && end.None? && start.value < fileSize then Ok((start.value, fileSize - 1))
      else if start.None? && end.Some? && end.value != 0 then Ok((WrapSub(fileSize, end.value), WrapSub(fileSize, 1)))
      else Err(RangeNotSatisfiable)
  }

  // A suffix range that asks for more bytes than the file has.
  predicate SuffixExceedsFile(header: string, fileSize: u64) {
    match ReadBounds(header)
    case Err(_) => false
    case Ok(Bounds(start, end)) => start.None? && end.Some? && end.value > fileSize
  }

  // An accepted range lies inside the file exactly if it is not such a suffix.
  lemma AcceptedRangeIsInFileIffSuffixFits(header: string, fileSize: u64)
    requires ParseRangeHeader(header, fileSize).Ok?
    ensures var (start, end) := ParseRangeHeader(header, fileSize).value;
            start <= end < fileSize <==> !SuffixExceedsFile(header, fileSize)
  {
  }

  lemma SuffixCanExceedFile()
    ensures ParseRangeHeader("bytes=-5", 3) == Ok((U64 - 2, 2))
  {
  }

  // A header is malformed iff it does not start with `bytes=` or has not exactly one dash after
  // that; nothing else is.
  lemma MalformedIffNotOneDash(header: string, fileSize: u64)
    ensures ParseRangeHeader(header, fileSize) == Err(BadRequest) <==>
            !("bytes=" <= header) || multiset(header[6..])['-'] != 1
  {
    if "bytes=" <= header {
      SplitCounts(header[6..], '-');
    }
  }

  /* ---- printed headers are read as meant ---- */

  function Printed(start: string, end: string): string {
    "bytes=" + start + "-" + end
  }

  lemma ReadPrinted(start: string, end: string)
    requires '-' !in start && '-' !in end
    ensures ReadBounds(Printed(start, end)) == Ok(Bounds(ParseUnsigned(start, U64), ParseUnsigned(end, U64)))
  {
    var header := Printed(start, end);
    assert header[..6] == "bytes=" && header[6..] == start + ['-'] + end;
    SplitOnce(start, '-', end);
  }

  // `bytes=s-e` means s to e; it is accepted iff that lies inside the file.
  lemma ClosedRangeRoundTrip(start: u64, end: u64, fileSize: u64)
    ensures ParseRangeHeader(Printed(ToString(start), ToString(end)), fileSize) ==
            if start <= end < fileSize then Ok((start, end)) else Err(RangeNotSatisfiable)
  {
    ReadPrinted(ToString(start), ToString(end));
    ParseOfToString(start, U64);
    ParseOfToString(end, U64);
  }

  // `bytes=s-` means s to the last byte.
  lemma OpenRangeRoundTrip(start: u64, fileSize: u64)
    ensures ParseRangeHeader(Printed(ToString(start), ""), fileSize) ==
            if start < fileSize then Ok((start, fileSize - 1)) else Err(RangeNotSatisfiable)
  {
    ReadPrinted(ToString(start), "");
    ParseOfToString(start, U64);
  }

  // `bytes=-k` means the last k bytes, if there are k.
  lemma SuffixRangeRoundTrip(k: u64, fileSize: u64)
    requires 0 < k <= fileSize
    ensures ParseRangeHeader(Printed("", ToString(k)), fileSize) == Ok((fileSize - k, fileSize - 1))
  {
    ReadPrinted("", ToString(k));
    ParseOfToString(k, U64);
  }

  // A bound that is no number counts as absent: before a number it makes a suffix range, after
  // one an open range, so that `bytes=x-5` asks for the last 5 bytes.
  lemma MalformedBoundIsAbsent(text: string, n: u64, fileSize: u64)
    requires '-' !in text && ParseUnsigned(text, U64).None?
    ensures ParseRangeHeader(Printed(text, ToString(n)), fileSize) == ParseRangeHeader(Printed("", ToString(n)), fileSize)
    ensures ParseRangeHeader(Printed(ToString(n), text), fileSize) == ParseRangeHeader(Printed(ToString(n), ""), fileSize)
  {
    ReadPrinted(text, ToString(n));
    ReadPrinted("", ToString(n));
    ReadPrinted(ToString(n), text);
    ReadPrinted(ToString(n), "");
  }

  lemma XIsMalformed(n: u64, fileSize: u64)
    requires 0 < n <= fileSize
    ensures ParseRangeHeader(Printed("x", ToString(n)), fileSize) == Ok((fileSize - n, fileSize - 1))
  {
    var text := "x";
    assert text[0] in text && !IsDigit(text[0]);
    MalformedBoundIsAbsent(text, n, fileSize);
    SuffixRangeRoundTrip(n, fileSize);
  }

  /* ---- the response ---- */

  const CONTENT_RANGE_CAPACITY := 200

  // The body is what a copy of the file from the start of the range delivers.
  datatype RangedResponse = RangedResponse(contentLength: u64, contentRange: string, body: seq<byte>)

  // Content-Length, Content-Range and body of a partial response, unless the file cannot be
  // positioned. The body runs to the end of the file, so it is as long as announced iff the
  // range ends there.
  method RangedFileResponse(file: seq<byte>, fileSize: u64, range: (u64, u64), seeks: bool)
    returns (response: Option<RangedResponse>)
    requires |file| == fileSize
    ensures response.None? <==> !seeks
    ensures seeks && range.0 <= range.1 < fileSize ==>
              && response.value.contentLength == range.1 - range.0 + 1
              && file[range.0..range.1 + 1] <= response.value.body
              && (|response.value.body| == response.value.contentLength <==> range.1 == fileSize - 1)
    ensures seeks ==> response.value.contentRange ==
                      "bytes " + ToString(range.0) + "-" + ToString(range.1) + "/" + ToString(fileSize)
    ensures seeks ==> ReadContentRange(response.value.contentRange) == Some((range.0, range.1, fileSize))
  {
    var (start, end) := range;
    var contentLength := WrapAdd(WrapSub(end, start), 1);
    if !seeks {
      return None;
    }
    TextIsShort(start, end, fileSize);
    ContentRangeRoundTrip(start, end, fileSize);
    var pieces := ["bytes ", ToString(start), "-", ToString(end), "/", ToString(fileSize)];
    var text := "";
    for i := 0 to |pieces|
      invariant i <= 6 && |text| <= 21 * i
      invariant i == 0 ==> text == ""
      invariant i == 1 ==> text == "bytes "
      invariant i == 2 ==> text == "bytes " + ToString(start)
      invariant i == 3 ==> text == "bytes " + ToString(start) + "-"
      invariant i == 4 ==> text == "bytes " + ToString(start) + "-" + ToString(end)
      invariant i == 5 ==> text == "bytes " + ToString(start) + "-" + ToString(end) + "/"
      invariant i == 6 ==> text == ContentRange(start, end, fileSize)
    {
      if |text| + |pieces[i]| > CONTENT_RANGE_CAPACITY {
        return None;
      }
      text := text + pieces[i];
    }
    response := Some(RangedResponse(contentLength, text, if start <= |file| then file[start..] else []));
  }

  function ContentRange(start: u64, end: u64, fileSize: u64): string {
    "bytes " + ToString(start) + "-" + ToString(end) + "/" + ToString(fileSize)
  }

  lemma TextIsShort(start: u64, end: u64, fileSize: u64)
    ensures |ToString(start)| <= 20 && |ToString(end)| <= 20 && |ToString(fileSize)| <= 20
  {
    assert Pow10(20) >= U64 by {
      assert Pow10(5) == 100000;
      assert Pow10(10) == 10000000000;
      assert Pow10(15) == 1000000000000000;
    }
    ToStringLength(start, 20);
    ToStringLength(end, 20);
    ToStringLength(fileSize, 20);
  }

  // A client's reading of the header.
  function ReadContentRange(text: string): Option<(u64, u64, u64)> {
    if !("bytes " <= text) then None
    else
      var halves := Split(text[6..], '/');
      if |halves| != 2 then None
      else
        var bounds := Split(halves[0], '-');
        if |bounds| != 2 then None
        else
          var start, end, size := ParseUnsigned(bounds[0], U64), ParseUnsigned(bounds[1], U64), ParseUnsigned(halves[1], U64);
          if start.Some? && end.Some? && size.Some? then Some((start.value, end.value, size.value)) else None
  }

  lemma ContentRangeRoundTrip(start: u64, end: u64, fileSize: u64)
    ensures ReadContentRange(ContentRange(start, end, fileSize)) == Some((start, end, fileSize))
  {
    var s, e, z := ToString(start), ToString(end), ToString(fileSize);
    var text := ContentRange(start, end, fileSize);
    assert text[..6] == "bytes " && text[6..] == (s + ['-'] + e) + ['/'] + z;
    SplitOnce(s + ['-'] + e, '/', z);
    SplitOnce(s, '-', e);
    ParseOfToString(start, U64);
    ParseOfToString(end, U64);
    ParseOfToString(fileSize, U64);
  }
}
