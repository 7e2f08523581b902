/** Bodies made of segments, the writer that emits them chunk by chunk, and ranged responses. */
module SegmentedBody {
  import opened Wrappers
  import opened Text
  import opened ByteRange

  datatype Segment =
    | TextSegment(text: string)
    | BufferWindow(data: string, offset: nat, length: nat)
    | FileWindow(offset: nat, length: nat)

  function Length(s: Segment): nat {
    match s
    case TextSegment(text) => |text|
    case BufferWindow(_, _, length) => length
    case FileWindow(_, length) => length
  }

  /** The window lies inside its buffer, or inside the file, which must then be there. */
  predicate InBounds(s: Segment, file: Option<string>) {
    match s
    case TextSegment(_) => true
    case BufferWindow(data, offset, length) => offset + length <= |data|
    case FileWindow(offset, length) => length == 0 || (file.Some? && offset + length <= |file.value|)
  }

  function BytesOf(s: Segment, file: Option<string>): (r: string)
    requires InBounds(s, file)
    ensures |r| == Length(s)
  {
    match s
    case TextSegment(text) => text
    case BufferWindow(data, offset, length) => data[offset..offset + length]
    case FileWindow(offset, length) => if length == 0 then "" else file.value[offset..offset + length]
  }

  predicate AllInBounds(segments: seq<Segment>, file: Option<string>) {
    forall s <- segments :: InBounds(s, file)
  }

  /** The bytes of the segments from `i` on, in order. */
  function ContentFrom(segments: seq<Segment>, file: Option<string>, i: nat): (r: string)
    requires AllInBounds(segments, file) && i <= |segments|
    ensures |r| == LengthFrom(segments, i)
    decreases |segments| - i
  {
    if i == |segments| then "" else BytesOf(segments[i], file) + ContentFrom(segments, file, i + 1)
  }

  /** The bytes still to come at segment `i`, of which a window may be open: its position and what is
      left of it. */
  function ContentAt(segments: seq<Segment>, file: Option<string>, i: nat, open: Option<(nat, nat)>): string
    requires AllInBounds(segments, file) && i <= |segments|
    requires open.Some? ==> i < |segments| && file.Some? && open.value.0 + open.value.1 <= |file.value|
  {
    match open
    case None => ContentFrom(segments, file, i)
    case Some((at, left)) => file.value[at..at + left] + ContentFrom(segments, file, i + 1)
  }

  function LengthFrom(segments: seq<Segment>, i: nat): nat
    requires i <= |segments|
    decreases |segments| - i
  {
    if i == |segments| then 0 else Length(segments[i]) + LengthFrom(segments, i + 1)
  }

  function Content(segments: seq<Segment>, file: Option<string>): string
    requires AllInBounds(segments, file)
  {
    ContentFrom(segments, file, 0)
  }

  lemma {:induction false} LengthSnoc(segments: seq<Segment>, s: Segment, i: nat)
    requires i <= |segments|
    ensures LengthFrom(segments + [s], i) == LengthFrom(segments, i) + Length(s)
    decreases |segments| - i
  {
    if i < |segments| {
      LengthSnoc(segments, s, i + 1);
    } else {
      assert LengthFrom(segments + [s], i + 1) == 0;
    }
  }

  lemma {:induction false} ContentSnoc(segments: seq<Segment>, s: Segment, file: Option<string>, i: nat)
    requires AllInBounds(segments, file) && InBounds(s, file) && i <= |segments|
    ensures ContentFrom(segments + [s], file, i) == ContentFrom(segments, file, i) + BytesOf(s, file)
    decreases |segments| - i
  {
    var more := BytesOf(s, file);
    if i < |segments| {
      ContentSnoc(segments, s, file, i + 1);
      var head, tail := BytesOf(segments[i], file), ContentFrom(segments, file, i + 1);
      assert head + (tail + more) == (head + tail) + more;
    } else {
      assert ContentFrom(segments + [s], file, i + 1) == "";
      assert more + "" == more && "" + more == more;
    }
  }

  /** `value_type`: the segments, the file they may refer to, and the promised size. */
  class BodyValue {
    var file: Option<string>
    var segments: seq<Segment>
    var size: nat

    ghost predicate Valid()
      reads this
    {
      size == LengthFrom(segments, 0) &&
      forall s <- segments :: s.BufferWindow? ==> s.offset + s.length <= |s.data|
    }

    /** Every window can be served. */
    ghost predicate Serviceable()
      reads this
    {
      AllInBounds(segments, file)
    }

    constructor ()
      ensures Valid() && segments == [] && size == 0 && file == None
    {
      file, segments, size := None, [], 0;
    }

    method AttachFile(content: string)
      requires Valid()
      modifies `file
      ensures Valid() && file == Some(content)
    {
      file := Some(content);
    }

    method AppendText(text: string)
      requires Valid()
      modifies `segments, `size
      ensures Valid() && segments == old(segments) + [TextSegment(text)] && size == old(size) + |text|
    {
      LengthSnoc(segments, TextSegment(text), 0);
      size := size + |text|;
      segments := segments + [TextSegment(text)];
    }

    method AppendBuffer(data: string, offset: nat, length: nat)
      requires Valid() && offset + length <= |data|
      modifies `segments, `size
      ensures Valid() && segments == old(segments) + [BufferWindow(data, offset, length)] && size == old(size) + length
    {
      LengthSnoc(segments, BufferWindow(data, offset, length), 0);
      size := size + length;
      segments := segments + [BufferWindow(data, offset, length)];
    }

    method AppendFileRange(offset: nat, length: nat)
      requires Valid()
      modifies `segments, `size
      ensures Valid() && segments == old(segments) + [FileWindow(offset, length)] && size == old(size) + length
    {
      LengthSnoc(segments, FileWindow(offset, length), 0);
      size := size + length;
      segments := segments + [FileWindow(offset, length)];
    }
  }

  const BUFFER_SIZE: nat := 32 * 1024

  datatype Got = Exhausted | Chunk(data: string, more: bool) | BadDescriptor | IoError

  class Writer {
    const body: BodyValue
    var index: nat
    var started: bool
    var remaining: nat
    var filePos: nat                  // the attached file's read position

    ghost predicate Valid()
      reads this, body
    {
      body.Valid() && index <= |body.segments| &&
      (started ==>
         index < |body.segments| && body.segments[index].FileWindow? && body.file.Some? &&
         0 < remaining <= body.segments[index].length &&
         filePos + remaining == body.segments[index].offset + body.segments[index].length)
    }

    /** How many promised bytes have not been handed out. */
    ghost function Owed(): nat
      reads this, body
      requires Valid()
    {
      if started then remaining + LengthFrom(body.segments, index + 1) else LengthFrom(body.segments, index)
    }

    /** The bytes not yet handed out. */
    ghost function Remaining(): string
      reads this, body
      requires Valid() && body.Serviceable()
    {
      assert started ==> body.segments[index] in body.segments;
      ContentAt(body.segments, body.file, index, if started then Some((filePos, remaining)) else None)
    }

    constructor (body: BodyValue)
      requires body.Valid()
      ensures Valid() && this.body == body && index == 0 && !started
      ensures body.Serviceable() ==> Remaining() == Content(body.segments, body.file)
    {
      this.body := body;
      index, started, remaining, filePos := 0, false, 0, 0;
    }

    /** `more()`: something non-empty follows. */
    method More() returns (r: bool)
      requires Valid()
      ensures r <==> started || LengthFrom(body.segments, index) > 0
      ensures body.Serviceable() ==> (r <==> Remaining() != "")
    {
      if started {
        assert body.segments[index] in body.segments;
        return true;
      }
      for i := index to |body.segments|
        invariant LengthFrom(body.segments, index) == LengthFrom(body.segments, i)
      {
        if Length(body.segments[i]) != 0 { return true; }
      }
      return false;
    }

    /** Read at most `want` bytes at the file position; the read may be short, and gives nothing only
        at the end of the file. */
    method ReadFile(want: nat) returns (data: string)
      requires body.file.Some?
      modifies `filePos
      ensures |data| <= want && (data == "" <==> want == 0 || old(filePos) >= |body.file.value|)
      ensures old(filePos) + |data| == filePos
      ensures data != "" ==> filePos <= |body.file.value| && data == body.file.value[old(filePos)..filePos]
    {
      var available := if filePos < |body.file.value| then |body.file.value| - filePos else 0;
      var limit := Min(want, available);
      if limit == 0 { return ""; }
      var n: nat :| 0 < n <= limit;
      data := body.file.value[filePos..filePos + n];
      filePos := filePos + n;
    }

    /** The next buffer, with whether more follow; a serviceable body never fails. */
    method Get() returns (r: Got)
      requires Valid()
      modifies this
      ensures Valid()
      ensures r.Chunk? ==> r.data != "" && Owed() + |r.data| == old(Owed())
      ensures body.Serviceable() ==>
                match r
                case Exhausted => old(Remaining()) == "" && Remaining() == ""
                case Chunk(data, more) =>
                  data != "" && old(Remaining()) == data + Remaining() && (more <==> Remaining() != "")
                case _ => false
    {
      while index < |body.segments|
        invariant Valid() && (started ==> old(started) && index == old(index))
        invariant body.Serviceable() ==> Remaining() == old(Remaining())
        invariant Owed() == old(Owed())
        decreases |body.segments| - index
      {
        match body.segments[index] {
          case TextSegment(text) =>
            r := Whole(text);
            if r.Chunk? { return; }
          case BufferWindow(data, offset, length) =>
            assert body.segments[index] in body.segments;
            r := Whole(data[offset..offset + length]);
            if r.Chunk? { return; }
          case FileWindow(offset, length) =>
            if started || length != 0 {
              r := FromFile(offset, length);
              return;
            }
            r := Whole("");
        }
      }
      return Exhausted;
    }

    /** A segment that is at hand: handed out as one buffer, or passed over when empty. */
    method Whole(bytes: string) returns (r: Got)
      requires Valid() && !started && index < |body.segments|
      requires |bytes| == Length(body.segments[index])
      requires body.Serviceable() ==> (assert body.segments[index] in body.segments; BytesOf(body.segments[index], body.file) == bytes)
      modifies `index
      ensures Valid() && !started && index == old(index) + 1
      ensures if bytes == "" then r.Exhausted? else r.Chunk? && r.data == bytes
      ensures Owed() + |bytes| == old(Owed())
      ensures body.Serviceable() ==> old(Remaining()) == bytes + Remaining()
      ensures body.Serviceable() && bytes == "" ==> old(Remaining()) == Remaining()
      ensures body.Serviceable() && r.Chunk? ==> (r.more <==> Remaining() != "")
    {
      index := index + 1;
      if bytes == "" {
        assert body.Serviceable() ==> "" + Remaining() == Remaining();
        return Exhausted;
      }
      var more := More();
      return Chunk(bytes, more);
    }

    /** The next piece of a file window. */
    method FromFile(offset: nat, length: nat) returns (r: Got)
      requires Valid() && index < |body.segments| && body.segments[index] == FileWindow(offset, length)
      requires started || length != 0
      modifies this
      ensures Valid()
      ensures r.Chunk? ==> r.data != "" && Owed() + |r.data| == old(Owed())
      ensures body.Serviceable() ==>
                r.Chunk? && r.data != "" && old(Remaining()) == r.data + Remaining() && (r.more <==> Remaining() != "")
    {
      hide LengthFrom, ContentFrom, AllInBounds, InBounds;
      if !started {
        if body.file.None? {
          if body.Serviceable() { WindowStarts(body.segments, body.file, index, offset, length); }
          return BadDescriptor;
        }
        OpenWindow(offset, length);
      }
      r := FromOpenWindow();
    }

    /** Nothing is read yet. */
    method OpenWindow(offset: nat, length: nat)
      requires Valid() && !started && body.file.Some? && length != 0
      requires index < |body.segments| && body.segments[index] == FileWindow(offset, length)
      modifies this
      ensures Valid() && started && Owed() == old(Owed())
      ensures body.Serviceable() ==> Remaining() == old(Remaining())
    {
      if body.Serviceable() { WindowStarts(body.segments, body.file, index, offset, length); }
      hide LengthFrom, ContentAt, AllInBounds, InBounds, BodyValue.Valid;
      filePos := offset;
      remaining := length;
      started := true;
    }

    method FromOpenWindow() returns (r: Got)
      requires Valid() && started
      modifies this
      ensures Valid()
      ensures r.Chunk? ==> r.data != "" && Owed() + |r.data| == old(Owed())
      ensures body.Serviceable() ==>
                r.Chunk? && r.data != "" && old(Remaining()) == r.data + Remaining() && (r.more <==> Remaining() != "")
    {
      hide LengthFrom, ContentFrom;
      var data := TakeWindow();
      if data == "" { return IoError; }         // the file shrank under us
      var more := More();
      return Chunk(data, more);
    }

    /** Reads on in the open window, and closes it when it is used up. */
    method TakeWindow() returns (data: string)
      requires Valid() && started
      modifies this
      ensures Valid() && Owed() + |data| == old(Owed())
      ensures body.Serviceable() ==> data != "" && old(Remaining()) == data + Remaining()
    {
      hide LengthFrom, ContentFrom, AllInBounds, InBounds;
      if body.Serviceable() { OpenWindowInBounds(); }
      data := ReadFile(Min(remaining, BUFFER_SIZE));
      if data == "" { return; }
      ghost var after := if body.Serviceable() then ContentFrom(body.segments, body.file, index + 1) else "";
      remaining := remaining - |data|;
      if body.Serviceable() {
        WindowSplit(body.file.value, old(filePos), filePos, filePos + remaining, after);
        assert old(Remaining()) == data + (body.file.value[filePos..filePos + remaining] + after);
      }
      if remaining == 0 {
        started := false;
        index := index + 1;
      }
    }

    lemma OpenWindowInBounds()
      requires Valid() && started && body.Serviceable()
      ensures body.file.Some? && filePos + remaining <= |body.file.value|
    {
      assert body.segments[index] in body.segments;
    }
  }

  /** What opening a window promises. */
  lemma WindowStarts(segments: seq<Segment>, file: Option<string>, i: nat, offset: nat, length: nat)
    requires AllInBounds(segments, file) && i < |segments| && segments[i] == FileWindow(offset, length) && length != 0
    ensures file.Some? && offset + length <= |file.value|
    ensures ContentAt(segments, file, i, None) == ContentAt(segments, file, i, Some((offset, length)))
  {
    assert segments[i] in segments;
  }

  lemma WindowSplit(file: string, lo: nat, mid: nat, hi: nat, after: string)
    requires lo <= mid <= hi <= |file|
    ensures file[lo..hi] + after == file[lo..mid] + (file[mid..hi] + after)
    ensures mid == hi ==> file[mid..hi] + after == after
  {
    assert file[lo..hi] == file[lo..mid] + file[mid..hi];
  }

  /** Repeated `get()` emits exactly the content, in as many bytes as were promised, and `more` tells
      the end, however short the file reads are. */
  method WriteAll(body: BodyValue) returns (out: string, ok: bool)
    requires body.Valid()
    ensures body.Serviceable() ==> ok && out == Content(body.segments, body.file) && |out| == body.size
  {
    hide LengthFrom, ContentFrom, AllInBounds, Writer.Valid, Writer.Remaining, Writer.Owed;
    var writer := new Writer(body);
    out, ok := "", true;
    ghost var good := body.Serviceable();
    ghost var all := if good then Content(body.segments, body.file) else "";
    assert "" + all == all;
    while true
      invariant writer.Valid() && fresh(writer) && writer.body == body
      invariant good ==> all == out + writer.Remaining()
      decreases writer.Owed()
    {
      var r := writer.Get();
      match r {
        case Exhausted =>
          assert good ==> out + "" == out;
          return;
        case Chunk(data, more) =>
          if good { Regroup(out, data, writer.Remaining()); }
          out := out + data;
          if !more {
            assert good ==> out + "" == out;
            return;
          }
        case _ => return out, false;
      }
    }
  }
}
