/** The multipart layout of a ranged response (section 14.6 of RFC 9110), read back from the wire. */
module RangedReading {
  import opened Wrappers
  import opened Text
  import opened ByteRange
  import opened RangedResponse

  datatype WirePart = WirePart(contentType: string, range: Range, size: nat, bytes: string)

  // ---- A reader --------------------------------------------------------------------------------

  /** What follows an expected text. */
  function After(s: string, expected: string): (r: Option<string>)
    ensures r.Some? ==> |r.value| + |expected| == |s|
  {
    if expected <= s then Some(s[|expected|..]) else None
  }

  /** The text before a stop, and what follows it. */
  function UpTo(s: string, stop: string): (r: Option<(string, string)>)
    ensures r.Some? ==> |r.value.1| <= |s|
  {
    match Find(s, stop)
    case None => None
    case Some(i) => Some((s[..i], s[i + |stop|..]))
  }

  function NumberUpTo(s: string, stop: string): (r: Option<(nat, string)>)
    ensures r.Some? ==> |r.value.1| <= |s|
  {
    match UpTo(s, stop)
    case None => None
    case Some((digits, rest)) => if IsNumber(digits) then Some((Decimal(digits), rest)) else None
  }

  /** The range of a Content-Range field up to the end of the header block. */
  function ReadRange(s: string): (r: Option<(Range, nat, string)>)
    ensures r.Some? ==> |r.value.2| <= |s|
  {
    match NumberUpTo(s, "-")
    case None => None
    case Some((first, s1)) =>
      match NumberUpTo(s1, "/")
      case None => None
      case Some((last, s2)) =>
        match NumberUpTo(s2, "\r\n\r\n")
        case None => None
        case Some((size, s3)) => Some((Range(first, last), size, s3))
  }

  /** One part after its delimiter: its two fields, and as many bytes as its range has. */
  function ReadPart(s: string): (r: Option<(WirePart, string)>)
    ensures r.Some? ==> |r.value.1| < |s|
  {
    match After(s, "\r\nContent-Type: ")
    case None => None
    case Some(s1) =>
      match UpTo(s1, CRLF)
      case None => None
      case Some((contentType, s2)) =>
        match After(s2, "Content-Range: bytes ")
        case None => None
        case Some(s3) =>
          match ReadRange(s3)
          case None => None
          case Some((range, size, s4)) =>
            var n := range.last + 1 - range.first;
            if 0 <= n <= |s4| then Some((WirePart(contentType, range, size, s4[..n]), s4[n..])) else None
  }

  /** The parts after a delimiter. */
  function ReadParts(boundary: string, s: string): Option<seq<WirePart>>
    decreases |s|
  {
    if s == "--\r\n" then Some([])
    else
      match ReadPart(s)
      case None => None
      case Some((part, s1)) =>
        match After(s1, "\r\n--" + boundary)
        case None => None
        case Some(s2) =>
          match ReadParts(boundary, s2)
          case None => None
          case Some(parts) => Some([part] + parts)
  }

  function Read(boundary: string, wire: string): Option<seq<WirePart>> {
    match After(wire, "--" + boundary)
    case None => None
    case Some(s) => ReadParts(boundary, s)
  }

  // ---- What was written is read --------------------------------------------------------------------

  lemma AfterIs(expected: string, rest: string)
    ensures After(expected + rest, expected) == Some(rest)
  {
  }

  lemma UpToIs(text: string, stop: string, rest: string)
    requires stop != "" && stop[0] !in text
    ensures UpTo(text + (stop + rest), stop) == Some((text, rest))
  {
    hide Find;
    FindAfter(text, stop, rest);
  }

  lemma NumberIs(n: nat, stop: string, rest: string)
    requires stop != "" && !IsDigit(stop[0])
    ensures NumberUpTo(DecimalText(n) + (stop + rest), stop) == Some((n, rest))
  {
    hide UpTo, DecimalText;
    var text := DecimalText(n);
    assert stop[0] !in text;
    UpToIs(text, stop, rest);
  }

  function RangeText(r: Range, size: nat, rest: string): string {
    DecimalText(r.first) + ("-" + (DecimalText(r.last) + ("/" + (DecimalText(size) + ("\r\n\r\n" + rest)))))
  }

  lemma RangeIs(r: Range, size: nat, rest: string)
    ensures ReadRange(RangeText(r, size, rest)) == Some((r, size, rest))
  {
    hide NumberUpTo, DecimalText;
    NumberIs(size, "\r\n\r\n", rest);
    NumberIs(r.last, "/", DecimalText(size) + ("\r\n\r\n" + rest));
    NumberIs(r.first, "-", DecimalText(r.last) + ("/" + (DecimalText(size) + ("\r\n\r\n" + rest))));
  }

  /** A part without its delimiter, followed by `rest`. */
  function PartText(v: Variant, r: Range, rest: string): string
    requires r.first <= r.last < |v.content|
  {
    "\r\nContent-Type: " + (v.contentType + (CRLF + ("Content-Range: bytes " +
    RangeText(r, |v.content|, v.content[r.first..r.last + 1] + rest))))
  }

  /** The part a range is read back as. */
  function PartOf(v: Variant, r: Range): WirePart
    requires r.first <= r.last < |v.content|
  {
    WirePart(v.contentType, r, |v.content|, v.content[r.first..r.last + 1])
  }

  lemma PartIs(v: Variant, r: Range, rest: string)
    requires r.first <= r.last < |v.content| && '\r' !in v.contentType
    ensures ReadPart(PartText(v, r, rest)) == Some((PartOf(v, r), rest))
  {
    hide After, UpTo, ReadRange, RangeText;
    var window := v.content[r.first..r.last + 1];
    var fromRange := RangeText(r, |v.content|, window + rest);
    var fromName := "Content-Range: bytes " + fromRange;
    AfterIs("\r\nContent-Type: ", v.contentType + (CRLF + fromName));
    UpToIs(v.contentType, CRLF, fromName);
    AfterIs("Content-Range: bytes ", fromRange);
    RangeIs(r, |v.content|, window + rest);
    assert (window + rest)[..|window|] == window && (window + rest)[|window|..] == rest;
  }

  /** The layout from the left: parts with delimiters between them, and the closing one. */
  function Laid(v: Variant, ranges: seq<Range>): string
    requires Inside(ranges, |v.content|)
  {
    if ranges == [] then "--\r\n"
    else
      assert ranges[0] in ranges;
      PartText(v, ranges[0], ("\r\n--" + v.boundary) + Laid(v, ranges[1..]))
  }

  function PartsOf(v: Variant, ranges: seq<Range>): seq<WirePart>
    requires Inside(ranges, |v.content|)
  {
    if ranges == [] then []
    else
      assert ranges[0] in ranges;
      [PartOf(v, ranges[0])] + PartsOf(v, ranges[1..])
  }

  lemma {:induction false} LaidIsRead(v: Variant, ranges: seq<Range>)
    requires Inside(ranges, |v.content|) && '\r' !in v.contentType
    ensures ReadParts(v.boundary, Laid(v, ranges)) == Some(PartsOf(v, ranges))
    decreases |ranges|
  {
    hide ReadPart, PartText, After;
    if ranges != [] {
      assert ranges[0] in ranges;
      var rest := ("\r\n--" + v.boundary) + Laid(v, ranges[1..]);
      LaidIsRead(v, ranges[1..]);
      PartIs(v, ranges[0], rest);
      AfterIs("\r\n--" + v.boundary, Laid(v, ranges[1..]));
      NotTheEnd(v, ranges[0], rest);
    }
  }

  lemma NotTheEnd(v: Variant, r: Range, rest: string)
    requires r.first <= r.last < |v.content|
    ensures PartText(v, r, rest) != "--\r\n"
  {
    assert PartText(v, r, rest)[0] == '\r';
  }

  lemma RangeTextIs(r: Range, size: nat, rest: string)
    ensures ContentRange(r, size) + ("\r\n\r\n" + rest) == "bytes " + RangeText(r, size, rest)
  {
    hide DecimalText;
    var a, b, n, end := DecimalText(r.first), DecimalText(r.last), DecimalText(size), "\r\n\r\n" + rest;
    Regroup("bytes " + a + "-" + b + "/", n, end);
    Regroup("bytes " + a + "-" + b, "/", n + end);
    Regroup("bytes " + a + "-", b, "/" + (n + end));
    Regroup("bytes " + a, "-", b + ("/" + (n + end)));
    Regroup("bytes ", a, "-" + (b + ("/" + (n + end))));
  }

  lemma FieldNames(rest: string)
    ensures "\r\nContent-Range: " + ("bytes " + rest) == CRLF + ("Content-Range: bytes " + rest)
  {
    Regroup("\r\nContent-Range: ", "bytes ", rest);
    Regroup(CRLF, "Content-Range: bytes ", rest);
    assert "\r\nContent-Range: " + "bytes " == CRLF + "Content-Range: bytes ";
  }

  lemma HeaderFlat(v: Variant, r: Range, isFirst: bool)
    ensures PartHeader(v, r, isFirst) ==
            (if isFirst then "--" else "\r\n--") + v.boundary + "\r\nContent-Type: " + v.contentType +
            "\r\nContent-Range: " + ContentRange(r, |v.content|) + "\r\n\r\n"
  {
    hide ContentRange;
    assert (if isFirst then "" else CRLF) + "--" == if isFirst then "--" else "\r\n--";
  }

  /** A part as it is written, and as it is read. */
  lemma HeaderIsPartText(v: Variant, r: Range, isFirst: bool, rest: string)
    requires r.first <= r.last < |v.content|
    ensures (PartHeader(v, r, isFirst) + v.content[r.first..r.last + 1]) + rest ==
            ((if isFirst then "--" else "\r\n--") + v.boundary) + PartText(v, r, rest)
  {
    hide ContentRange, RangeText, DecimalText;
    HeaderFlat(v, r, isFirst);
    hide PartHeader;
    var window, size := v.content[r.first..r.last + 1], |v.content|;
    var dashes := if isFirst then "--" else "\r\n--";
    var t, g, e := "\r\nContent-Type: ", "\r\nContent-Range: ", "\r\n\r\n";
    var q := dashes + v.boundary;
    var tail := e + (window + rest);
    Regroup(PartHeader(v, r, isFirst), window, rest);
    Regroup(q + t + v.contentType + g + ContentRange(r, size), e, window + rest);
    Regroup(q + t + v.contentType + g, ContentRange(r, size), tail);
    Regroup(q + t + v.contentType, g, ContentRange(r, size) + tail);
    Regroup(q + t, v.contentType, g + (ContentRange(r, size) + tail));
    Regroup(q, t, v.contentType + (g + (ContentRange(r, size) + tail)));
    RangeTextIs(r, size, window + rest);
    FieldNames(RangeText(r, size, window + rest));
  }

  /** The parts up to the `n`-th and what is laid out behind them. */
  lemma {:induction false} LaidFromTheLeft(v: Variant, ranges: seq<Range>, n: nat)
    requires Inside(ranges, |v.content|) && 1 <= n <= |ranges|
    ensures PartsUpTo(v, ranges, n) + (("\r\n--" + v.boundary) + Laid(v, ranges[n..])) ==
            ("--" + v.boundary) + Laid(v, ranges)
    decreases n
  {
    hide PartHeader, PartText;
    var r := ranges[n - 1];
    assert r in ranges;
    var window := v.content[r.first..r.last + 1];
    var rest := ("\r\n--" + v.boundary) + Laid(v, ranges[n..]);
    HeaderIsPartText(v, r, n == 1, rest);
    assert ranges[n - 1..][0] == r && ranges[n - 1..][1..] == ranges[n..];
    assert Laid(v, ranges[n - 1..]) == PartText(v, r, rest);
    Regroup(PartsUpTo(v, ranges, n - 1), PartHeader(v, r, n == 1) + window, rest);
    if n == 1 {
      assert ranges[0..] == ranges;
      assert "" + ((PartHeader(v, r, true) + window) + rest) == (PartHeader(v, r, true) + window) + rest;
    } else {
      LaidFromTheLeft(v, ranges, n - 1);
    }
  }

  lemma ClosingIs(v: Variant)
    ensures Closing(v) == ("\r\n--" + v.boundary) + Laid(v, [])
  {
  }

  /** What is sent for more than one range reads back as these ranges, each with the content type, the total
      size and its own window of the content. */
  lemma WireIsRead(v: Variant, ranges: seq<Range>)
    requires Inside(ranges, |v.content|) && |ranges| > 1 && '\r' !in v.contentType
    ensures Read(v.boundary, Expected(v, ranges)) == Some(PartsOf(v, ranges))
  {
    hide ReadParts, PartsUpTo, Laid, Closing;
    LaidFromTheLeft(v, ranges, |ranges|);
    ClosingIs(v);
    assert ranges[|ranges|..] == [];
    AfterIs("--" + v.boundary, Laid(v, ranges));
    LaidIsRead(v, ranges);
  }

  lemma {:induction false} PartsInOrder(v: Variant, ranges: seq<Range>, i: nat)
    requires Inside(ranges, |v.content|) && i < |ranges|
    ensures |PartsOf(v, ranges)| == |ranges| && ranges[i].first <= ranges[i].last < |v.content|
    ensures PartsOf(v, ranges)[i] == PartOf(v, ranges[i])
    decreases |ranges|
  {
    assert ranges[0] in ranges && ranges[i] in ranges;
    if i > 0 { PartsInOrder(v, ranges[1..], i - 1); } else if |ranges| > 1 { PartsInOrder(v, ranges[1..], 0); }
  }
}
