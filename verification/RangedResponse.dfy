/** The range part of `serve_file`: from a Range header to the bytes on the wire. */
module RangedResponse {
  import opened Wrappers
  import opened Text
  import opened ByteRange
  import opened SegmentedBody

  /** `std::to_string`. */
  function DecimalText(n: nat): (s: string)
    ensures s != "" && AllDigits(s) && Decimal(s) == n
  {
    var digit := '0' + (n % 10) as char;
    if n < 10 then
      assert [digit][..0] == "" && Decimal("") == 0;
      [digit]
    else
      var front := DecimalText(n / 10);
      var s := front + [digit];
      assert s[..|s| - 1] == front;
      s
  }

  function ContentRange(r: Range, size: nat): string {
    "bytes " + DecimalText(r.first) + "-" + DecimalText(r.last) + "/" + DecimalText(size)
  }

  datatype Variant = Variant(content: string, contentType: string, boundary: string)

  function PartHeader(v: Variant, r: Range, isFirst: bool): string {
    (if isFirst then "" else CRLF) + "--" + v.boundary + "\r\nContent-Type: " + v.contentType +
    "\r\nContent-Range: " + ContentRange(r, |v.content|) + "\r\n\r\n"
  }

  function Closing(v: Variant): string {
    "\r\n--" + v.boundary + "--\r\n"
  }

  predicate Inside(ranges: seq<Range>, size: nat) {
    forall r <- ranges :: r.first <= r.last < size
  }

  /** The parts of the first `n` ranges. */
  function PartsUpTo(v: Variant, ranges: seq<Range>, n: nat): string
    requires Inside(ranges, |v.content|) && n <= |ranges|
  {
    if n == 0 then ""
    else
      var r := ranges[n - 1];
      assert r in ranges;
      PartsUpTo(v, ranges, n - 1) + (PartHeader(v, r, n == 1) + v.content[r.first..r.last + 1])
  }

  /** What the wire carries for a set of ranges (section 14.6 of RFC 9110). */
  function Expected(v: Variant, ranges: seq<Range>): string
    requires Inside(ranges, |v.content|)
  {
    if ranges == [] then v.content
    else if |ranges| == 1 then
      assert ranges[0] in ranges;
      v.content[ranges[0].first..ranges[0].last + 1]
    else PartsUpTo(v, ranges, |ranges|) + Closing(v)
  }

  /** A window of the content, served from memory or from the open file. */
  function Window(v: Variant, inMemory: bool, offset: nat, length: nat): Segment {
    if inMemory then BufferWindow(v.content, offset, length) else FileWindow(offset, length)
  }

  function SourceFile(v: Variant, inMemory: bool): Option<string> {
    if inMemory then None else Some(v.content)
  }

  method AppendWindow(body: BodyValue, v: Variant, inMemory: bool, offset: nat, length: nat)
    requires body.Valid() && body.Serviceable() && body.file == SourceFile(v, inMemory)
    requires offset + length <= |v.content|
    modifies body
    ensures body.Valid() && body.Serviceable() && body.file == old(body.file)
    ensures Content(body.segments, body.file) ==
            old(Content(body.segments, body.file)) + v.content[offset..offset + length]
  {
    ContentSnoc(body.segments, Window(v, inMemory, offset, length), body.file, 0);
    assert length == 0 ==> v.content[offset..offset + length] == "";
    if inMemory {
      body.AppendBuffer(v.content, offset, length);
    } else {
      body.AppendFileRange(offset, length);
    }
  }

  method AppendPartText(body: BodyValue, text: string)
    requires body.Valid() && body.Serviceable()
    modifies body
    ensures body.Valid() && body.Serviceable() && body.file == old(body.file)
    ensures Content(body.segments, body.file) == old(Content(body.segments, body.file)) + text
  {
    ContentSnoc(body.segments, TextSegment(text), body.file, 0);
    body.AppendText(text);
  }

  method BuildBody(v: Variant, inMemory: bool, ranges: seq<Range>) returns (body: BodyValue)
    requires Inside(ranges, |v.content|)
    ensures fresh(body) && body.Valid() && body.Serviceable()
    ensures Content(body.segments, body.file) == Expected(v, ranges)
  {
    hide Content, AllInBounds, PartHeader, Closing;
    body := new BodyValue();
    if !inMemory { body.AttachFile(v.content); }
    Nothing(body.file);
    if ranges == [] {
      AppendWindow(body, v, inMemory, 0, |v.content|);
      assert "" + v.content[0..|v.content|] == v.content;
    } else if |ranges| == 1 {
      var r := ranges[0];
      assert r in ranges;
      AppendWindow(body, v, inMemory, r.first, r.last - r.first + 1);
      assert "" + v.content[r.first..r.last + 1] == v.content[r.first..r.last + 1];
    } else {
      for i := 0 to |ranges|
        invariant fresh(body) && body.Valid() && body.Serviceable() && body.file == SourceFile(v, inMemory)
        invariant Content(body.segments, body.file) == PartsUpTo(v, ranges, i)
      {
        var r := ranges[i];
        assert r in ranges;
        ghost var before := PartsUpTo(v, ranges, i);
        AppendPartText(body, PartHeader(v, r, i == 0));
        AppendWindow(body, v, inMemory, r.first, r.last - r.first + 1);
        Regroup(before, PartHeader(v, r, i == 0), v.content[r.first..r.last + 1]);
      }
      AppendPartText(body, Closing(v));
    }
  }

  lemma Nothing(file: Option<string>)
    ensures AllInBounds([], file) && Content([], file) == ""
  {
  }

  datatype Reply = Reply(status: nat, bytes: string)

  /** `merged` holds exactly the wanted bytes of the content, each once and in order. */
  ghost predicate Merges(merged: seq<Range>, wanted: seq<Range>, size: nat) {
    Separated(merged) && merged != [] && Inside(merged, size) && forall b: nat :: Holds(merged, b) <==> Holds(wanted, b)
  }

  /** A GET with an optional Range header: 416 when no range overlaps, the whole content when there is
      nothing to honour, and otherwise 206 with exactly the wanted bytes, each once and in order. */
  method Serve(v: Variant, inMemory: bool, range: Option<string>, maxRanges: nat) returns (reply: Reply)
    requires |v.content| <= MAX
    ensures var wanted := if range.None? then Ignored else Parse(range.value, |v.content|, maxRanges, true);
            match wanted
            case NoneSatisfiable => reply == Reply(416, "")
            case Ignored => reply == Reply(200, v.content)
            case Satisfiable(ranges) =>
              exists merged :: Merges(merged, ranges, |v.content|) && reply == Reply(206, Expected(v, merged))
  {
    hide Content, AllInBounds, Expected, Parse, Holds;
    var ranges: seq<Range> := [];
    if range.Some? {
      var parsed := ParseRange(range.value, |v.content|, maxRanges);
      if parsed.NoneSatisfiable? { return Reply(416, ""); }
      if parsed.Satisfiable? {
        ranges := Coalesce(parsed.ranges);
        StaysInside(parsed.ranges, ranges, |v.content|);
        assert Merges(ranges, parsed.ranges, |v.content|);
      }
    }
    var body := BuildBody(v, inMemory, ranges);
    var bytes, ok := WriteAll(body);
    NoRanges(v);
    return Reply(if ranges == [] then 200 else 206, bytes);
  }

  lemma NoRanges(v: Variant)
    ensures Expected(v, []) == v.content
  {
  }

  lemma StaysInside(a: seq<Range>, b: seq<Range>, size: nat)
    requires Inside(a, size) && Separated(b) && forall x: nat :: Holds(b, x) <==> Holds(a, x)
    ensures Inside(b, size)
  {
    forall r <- b ensures r.first <= r.last < size {
      assert ValidRange(r);
      assert Holds(b, r.last);
    }
  }
}
