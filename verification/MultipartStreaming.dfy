/** Streaming against buffering over whole runs: any interleaving of `NextPart` and `ReadSome`. */
module MultipartStreaming {
  import opened Wrappers
  import opened Text
  import opened MultipartHeader
  import opened Multipart
  import opened MultipartReader

  datatype Command = NextCommand | ReadCommand(max: nat)

  datatype Reply = Opened(header: PartHeader) | NoMore | Got(data: string)

  /** How many parts a log has opened. */
  function OpenedCount(log: seq<Reply>): nat {
    if log == [] then 0
    else OpenedCount(log[..|log| - 1]) + if log[|log| - 1].Opened? then 1 else 0
  }

  /** The bytes read since a part was last opened, or nothing outside a part. */
  function SinceOpened(log: seq<Reply>): Option<string> {
    if log == [] then None
    else
      match log[|log| - 1]
      case Opened(_) => Some("")
      case NoMore => None
      case Got(d) =>
        match SinceOpened(log[..|log| - 1])
        case None => None
        case Some(got) => Some(got + d)
  }

  /** A log is right so far: the last reply agrees with the buffered parts. The k-th part opened has
      the k-th header, what was read of it is a prefix of its data, outside a part nothing is read,
      and the end is reported after the last part only. */
  ghost predicate AgreesWith(parts: seq<Part>, log: seq<Reply>) {
    var k := OpenedCount(log);
    k <= |parts| &&
    (SinceOpened(log).Some? ==> k > 0 && SinceOpened(log).value <= parts[k - 1].data) &&
    (log != [] ==>
       match log[|log| - 1]
       case Opened(h) => k > 0 && h == parts[k - 1].header
       case NoMore => k == |parts|
       case Got(d) => SinceOpened(log).None? ==> d == "")
  }

  /** The log was right after every reply. */
  ghost predicate AlwaysAgrees(parts: seq<Part>, log: seq<Reply>) {
    forall n | 0 <= n <= |log| :: AgreesWith(parts, log[..n])
  }

  lemma ExtendAgreement(parts: seq<Part>, log: seq<Reply>, log1: seq<Reply>)
    requires AlwaysAgrees(parts, log) && AgreesWith(parts, log1)
    requires |log1| == |log| + 1 && log1[..|log|] == log
    ensures AlwaysAgrees(parts, log1)
  {
    forall n | 0 <= n <= |log1| ensures AgreesWith(parts, log1[..n]) {
      if n <= |log| { assert log1[..n] == log[..n]; } else { assert log1[..n] == log1; }
    }
  }

  /** What is left after `log` has been delivered from `parts`. */
  ghost predicate LeftAfter(parts: seq<Part>, log: seq<Reply>, rest: Meaning) {
    var k := OpenedCount(log);
    k <= |parts| && rest.Ok? && rest.value.parts == parts[k..] &&
    match SinceOpened(log)
    case None => rest.value.lead == ""
    case Some(got) => k > 0 && got + rest.value.lead == parts[k - 1].data
  }

  lemma NextReply(parts: seq<Part>, log: seq<Reply>, before: Meaning, header: Option<PartHeader>, after: Meaning)
    requires LeftAfter(parts, log, before)
    requires Advances(before, header, after)
    ensures var log1 := log + [if header.Some? then Opened(header.value) else NoMore];
            AgreesWith(parts, log1) && LeftAfter(parts, log1, after)
  {
    var log1 := log + [if header.Some? then Opened(header.value) else NoMore];
    assert log1[..|log|] == log;
    if header.Some? {
      var data := parts[OpenedCount(log)].data;
      assert "" + data == data;
    }
  }

  lemma ReadReply(parts: seq<Part>, log: seq<Reply>, before: Meaning, data: string, after: Meaning)
    requires LeftAfter(parts, log, before)
    requires before == AddLead(data, after)
    ensures AgreesWith(parts, log + [Got(data)]) && LeftAfter(parts, log + [Got(data)], after)
  {
    var log1 := log + [Got(data)];
    assert log1[..|log|] == log;
    match SinceOpened(log)
    case None =>
    case Some(got) =>
      assert got + (data + after.value.lead) == (got + data) + after.value.lead;
  }

  /** Run any commands against a body arriving in any pieces. When the body parses and its header
      blocks fit, nothing fails, every reply agrees with the buffered parts, and a part reported
      done has been delivered completely. */
  method ReadForm(body: BodySource, boundary: string, commands: seq<Command>)
      returns (log: seq<Reply>, failed: bool, done: bool)
    modifies body
    ensures var cfg := Config(boundary, DEFAULT_MAX_HEADER);
            var whole := Whole(cfg, Preamble, old(body.Future()));
            whole.Ok? && HeadersFit(cfg, Preamble, old(body.Future())) ==>
              !failed && |log| == |commands| &&
              AlwaysAgrees(whole.value.parts, log) &&
              AgreesWith(whole.value.parts, log) &&
              (done && SinceOpened(log).Some? ==>
                 SinceOpened(log).value == whole.value.parts[OpenedCount(log) - 1].data)
  {
    hide Whole, HeadersFit, Find;
    var reader := new MultipartReader(body, boundary);
    log, failed := [], false;
    ghost var text := body.Future();
    ghost var good := reader.Rest().Ok? && reader.Fitting();
    ghost var parts := if reader.Rest().Ok? then reader.Rest().value.parts else [];
    NoLeadBetweenParts(reader.scanner.cfg, Preamble, text);
    assert parts[0..] == parts;
    for i := 0 to |commands|
      invariant fresh(reader) && fresh(reader.scanner) && reader.Valid() && reader.body == body
      invariant |log| == i
      invariant good ==> reader.Fitting() && LeftAfter(parts, log, reader.Rest())
      invariant good ==> AgreesWith(parts, log) && AlwaysAgrees(parts, log)
      invariant good && reader.PartDone() ==> reader.Rest().value.lead == ""
    {
      ghost var before := reader.Rest();
      ghost var was := log;
      match commands[i] {
      case NextCommand =>
        var r := reader.NextPart();
        if r.Err? { return log, true, reader.partDone; }
        if good { NextReply(parts, log, before, r.value, reader.Rest()); }
        log := log + [if r.value.Some? then Opened(r.value.value) else NoMore];
        NoLeadBetweenParts(reader.scanner.cfg, if reader.partDone then reader.scanner.phase else PartEnding,
                           reader.scanner.View().buf + reader.Unread());
      case ReadCommand(max) =>
        var r := reader.ReadSome(max);
        if r.Err? { return log, true, reader.partDone; }
        if good { ReadReply(parts, log, before, r.value, reader.Rest()); }
        log := log + [Got(r.value)];
      }
      if good { ExtendAgreement(parts, was, log); }
    }
    done := reader.PartDone();
  }
}
