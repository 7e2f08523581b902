/** The stateful scanner, `parse_multipart`, and the streaming reader over a body source. */
module MultipartReader {
  import opened Wrappers
  import opened Text
  import opened MultipartHeader
  import opened Multipart

  const DEFAULT_MAX_HEADER: nat := 16 * 1024
  const PIECE: nat := 64 * 1024

  class MultipartScanner {
    const cfg: Config
    var buf: string
    var pos: nat
    var eof: bool
    var phase: Phase

    ghost predicate Valid()
      reads this
    {
      pos <= |buf| && (phase == Preamble ==> pos == 0 || pos + |cfg.FirstDelim()| == |buf|)
    }

    /** The state with the consumed bytes forgotten. */
    ghost function View(): Scan
      reads this
      requires Valid()
    {
      Scan(phase, buf[pos..], eof)
    }

    constructor (boundary: string, maxHeader: nat)
      ensures Valid() && View() == START && cfg == Config(boundary, maxHeader)
    {
      cfg := Config(boundary, maxHeader);
      buf, pos, eof, phase := "", 0, false, Preamble;
    }

    method Compact()
      requires Valid()
      modifies `buf, `pos
      ensures Valid() && View() == old(View()) && pos == 0
    {
      if pos > 0 {
        buf := buf[pos..];
        pos := 0;
      }
    }

    method Feed(bytes: string)
      requires Valid()
      modifies `buf, `pos
      ensures Valid() && View() == old(View()).(buf := old(View()).buf + bytes)
    {
      Compact();
      buf := buf + bytes;
    }

    method Finish()
      requires Valid()
      modifies `eof
      ensures Valid() && View() == old(View()).(eof := true)
    {
      eof := true;
    }

    /** Scan for the next event: a dispatch on the phase. */
    method Next() returns (r: Result<Step, Malformed>)
      requires Valid()
      modifies this
      ensures Valid() && (r, View()) == Multipart.Next(cfg, old(View()))
      decreases Rank(phase), 1
    {
      match phase
      case Preamble => r := InPreamble();
      case AfterDelim => r := InAfterDelim();
      case Headers => r := InHeaders();
      case Data => r := InData();
      case PartEnding =>
        phase := AfterDelim;
        return Ok(PartEnd);
      case Finished =>
        return Ok(FinishedStep);
    }

    method InPreamble() returns (r: Result<Step, Malformed>)
      requires Valid() && phase == Preamble
      modifies this
      ensures Valid() && (r, View()) == Multipart.Next(cfg, old(View()))
      decreases Rank(phase), 0
    {
      hide Find;
      var i := Find(buf[pos..], cfg.FirstDelim());
      if i.None? {
        if eof { return Err(NoOpeningBoundary); }
        // Keep the tail that could be the start of the delimiter.
        pos := if |buf| > |cfg.FirstDelim()| then |buf| - |cfg.FirstDelim()| else 0;
        assert View().buf == KeepTail(old(View()).buf, |cfg.FirstDelim()|);
        return Ok(NeedMore);
      }
      pos := pos + i.value + |cfg.FirstDelim()|;
      phase := AfterDelim;
      assert View() == Scan(AfterDelim, old(View()).buf[i.value + |cfg.FirstDelim()|..], eof);
      assert Multipart.Next(cfg, old(View())) == Multipart.Next(cfg, View());
      r := Next();
    }

    method InAfterDelim() returns (r: Result<Step, Malformed>)
      requires Valid() && phase == AfterDelim
      modifies this
      ensures Valid() && (r, View()) == Multipart.Next(cfg, old(View()))
      decreases Rank(phase), 0
    {
      hide Find;
      if |buf| - pos < 2 {
        if eof { return Err(TruncatedAfterBoundary); }
        return Ok(NeedMore);
      }
      var two := buf[pos..pos + 2];
      assert two == View().buf[..2];
      if two == "--" {
        phase := Finished;
        return Ok(FinishedStep);
      }
      if two != CRLF { return Err(BadBoundaryTail); }
      pos := pos + 2;
      phase := Headers;
      assert View() == Scan(Headers, old(View()).buf[2..], eof);
      r := Next();
    }

    method InHeaders() returns (r: Result<Step, Malformed>)
      requires Valid() && phase == Headers
      modifies this
      ensures Valid() && (r, View()) == Multipart.Next(cfg, old(View()))
      decreases Rank(phase), 0
    {
      hide Find;
      var end := Find(buf[pos..], HEADER_END);
      if end.None? {
        if |buf| - pos > cfg.maxHeader { return Err(HeadersTooLarge); }
        if eof { return Err(HeadersTruncated); }
        return Ok(NeedMore);
      }
      assert buf[pos..pos + end.value] == View().buf[..end.value];
      var header := ParseHeadersLoop(buf[pos..pos + end.value]);
      if header.Err? { return Err(header.error); }
      pos := pos + end.value + 4;
      phase := Data;
      assert View() == Scan(Data, old(View()).buf[end.value + 4..], eof);
      return Ok(PartBegin(header.value));
    }

    method InData() returns (r: Result<Step, Malformed>)
      requires Valid() && phase == Data
      modifies this
      ensures Valid() && (r, View()) == Multipart.Next(cfg, old(View()))
      decreases Rank(phase), 0
    {
      hide Find;
      var i := Find(buf[pos..], cfg.Delim());
      if i.Some? {
        var data := buf[pos..pos + i.value];
        assert data == View().buf[..i.value];
        pos := pos + i.value + |cfg.Delim()|;
        phase := PartEnding;
        assert View() == Scan(PartEnding, old(View()).buf[i.value + |cfg.Delim()|..], eof);
        if data == "" {
          r := Next();
          return;
        }
        return Ok(DataStep(data));
      }
      if eof { return Err(NoClosingBoundary); }
      // Deliver what cannot be part of a delimiter yet.
      var hold := |cfg.Delim()| - 1;
      var available := |buf| - pos;
      if available <= hold { return Ok(NeedMore); }
      var data := buf[pos..pos + (available - hold)];
      assert data == View().buf[..available - hold];
      pos := pos + (available - hold);
      assert View().buf == old(View()).buf[available - hold..];
      return Ok(DataStep(data));
    }
  }

  /** `form.parts.back().data.append(data)`. */
  function AppendData(parts: seq<Part>, data: string): seq<Part> {
    if parts == [] then [] else
    var last := parts[|parts| - 1];
    parts[..|parts| - 1] + [last.(data := last.data + data)]
  }

  /** The parts collected so far, completed by what the rest of the input means. */
  ghost function Completed(parts: seq<Part>, rest: Meaning): Result<seq<Part>, Malformed> {
    match rest
    case Err(e) => Err(e)
    case Ok(t) => Ok(AppendData(parts, t.lead) + t.parts)
  }

  lemma CompletedData(parts: seq<Part>, d: string, rest: Meaning)
    requires parts != []
    ensures Completed(parts, AddLead(d, rest)) == Completed(AppendData(parts, d), rest)
  {
    if rest.Ok? {
      var last := parts[|parts| - 1];
      assert (last.data + d) + rest.value.lead == last.data + (d + rest.value.lead);
    }
  }

  lemma CompletedOpen(parts: seq<Part>, h: PartHeader, rest: Meaning)
    ensures Completed(parts, OpenPart(h, rest)) == Completed(parts + [Part(h, "")], rest)
  {
    if rest.Ok? {
      var lead, grown := rest.value.lead, parts + [Part(h, "")];
      AppendNothing(parts);
      assert grown[..|parts|] == parts && "" + lead == lead;
      assert AppendData(grown, lead) == parts + [Part(h, lead)];
      assert parts + ([Part(h, lead)] + rest.value.parts) == (parts + [Part(h, lead)]) + rest.value.parts;
    }
  }

  lemma AppendNothing(parts: seq<Part>)
    ensures AppendData(parts, "") == parts
  {
    if parts != [] {
      var last := parts[|parts| - 1];
      assert last.data + "" == last.data;
    }
  }

  /** In these phases no part is open. */
  predicate BetweenParts(p: Phase) { p != Data && p != PartEnding }

  lemma {:induction false} NoLeadBetweenParts(cfg: Config, phase: Phase, rest: string)
    requires BetweenParts(phase) || phase == PartEnding
    ensures var m := Whole(cfg, phase, rest); m.Ok? ==> m.value.lead == ""
    decreases |rest|, Rank(phase)
  {
    match phase
    case Preamble =>
      var i := Find(rest, cfg.FirstDelim());
      if i.Some? { NoLeadBetweenParts(cfg, AfterDelim, rest[i.value + |cfg.FirstDelim()|..]); }
    case AfterDelim => if |rest| >= 2 { NoLeadBetweenParts(cfg, Headers, rest[2..]); }
    case PartEnding => NoLeadBetweenParts(cfg, AfterDelim, rest);
    case _ =>
  }

  /** Parse a complete body: the result is the reference meaning of the text. */
  method ParseMultipart(body: string, boundary: string) returns (r: Result<seq<Part>, Malformed>)
    ensures match Whole(Config(boundary, DEFAULT_MAX_HEADER), Preamble, body)
            case Err(e) => r == Err(e)
            case Ok(t) => r == Ok(t.parts)
  {
    var scanner := new MultipartScanner(boundary, DEFAULT_MAX_HEADER);
    scanner.Feed(body);
    scanner.Finish();
    var parts: seq<Part> := [];
    ghost var cfg, whole := scanner.cfg, Whole(scanner.cfg, Preamble, body);
    assert scanner.View() == Scan(Preamble, body, true) by { assert "" + body == body; }
    assert body + "" == body;
    while true
      invariant fresh(scanner) && scanner.Valid() && scanner.cfg == cfg && scanner.eof
      invariant Completed(parts, MeaningOf(cfg, scanner.View(), "")) == Completed([], whole)
      invariant BetweenParts(scanner.phase) || parts != []
      decreases |scanner.View().buf|, Rank(scanner.phase)
    {
      ghost var before := scanner.View();
      NextMeaning(cfg, before, "");
      NextProgress(cfg, before);
      EventPhase(cfg, before);
      var s := scanner.Next();
      ghost var rest := MeaningOf(cfg, scanner.View(), "");
      if s.Err? { return Err(s.error); }
      match s.value
      case PartBegin(h) =>
        CompletedOpen(parts, h, rest);
        parts := parts + [Part(h, "")];
      case DataStep(d) =>
        CompletedData(parts, d, rest);
        parts := AppendData(parts, d);
      case PartEnd =>
      case FinishedStep =>
        AppendNothing(parts);
        assert parts + [] == parts && whole.Ok? && [] + whole.value.parts == whole.value.parts;
        return Ok(parts);
      case NeedMore =>
    }
  }

  /** Asking for more never raises the rank, nor grows the buffer. */
  lemma {:induction false} RankOfNeedMore(cfg: Config, s: Scan)
    ensures Rank(Next(cfg, s).1.phase) <= Rank(s.phase) || !Next(cfg, s).0.Ok? || !Next(cfg, s).0.value.NeedMore?
    decreases Rank(s.phase)
  {
    match s.phase
    case Preamble =>
      var f := Find(s.buf, cfg.FirstDelim());
      if f.Some? { RankOfNeedMore(cfg, Scan(AfterDelim, s.buf[f.value + |cfg.FirstDelim()|..], s.eof)); }
    case AfterDelim =>
      if |s.buf| >= 2 && s.buf[..2] == CRLF { RankOfNeedMore(cfg, Scan(Headers, s.buf[2..], s.eof)); }
    case _ =>
  }

  /** Data and part ends come only out of an open part, and where each event leaves the scanner. */
  lemma {:induction false} EventPhase(cfg: Config, s: Scan)
    ensures s.phase == Finished ==> Next(cfg, s) == (Ok(FinishedStep), s)
    ensures var (out, s1) := Next(cfg, s);
            out.Ok? ==>
              match out.value
              case NeedMore =>
                s.phase != PartEnding && s1.phase != PartEnding && s.phase != Finished && (s1.phase == Data <==> s.phase == Data)
              case PartBegin(_) => s1.phase == Data && BetweenParts(s.phase)
              case DataStep(d) => (s1.phase == Data || s1.phase == PartEnding) && s.phase == Data && d != ""
              case PartEnd => s1.phase == AfterDelim && !BetweenParts(s.phase)
              case FinishedStep => s1.phase == Finished && BetweenParts(s.phase)
    decreases Rank(s.phase)
  {
    match s.phase
    case Preamble =>
      var f := Find(s.buf, cfg.FirstDelim());
      if f.Some? { EventPhase(cfg, Scan(AfterDelim, s.buf[f.value + |cfg.FirstDelim()|..], s.eof)); }
    case AfterDelim =>
      if |s.buf| >= 2 && s.buf[..2] == CRLF { EventPhase(cfg, Scan(Headers, s.buf[2..], s.eof)); }
    case Data =>
      var f := Find(s.buf, cfg.Delim());
      if f.Some? { EventPhase(cfg, Scan(PartEnding, s.buf[f.value + |cfg.Delim()|..], s.eof)); }
    case _ =>
  }

  // ---- Streaming --------------------------------------------------------------------

  /** A request body arriving in pieces; an empty piece ends it, as a read of zero bytes does. */
  class BodySource {
    var pieces: seq<string>

    constructor (pieces: seq<string>)
      ensures this.pieces == pieces
    {
      this.pieces := pieces;
    }

    function Future(): string
      reads this
    {
      Arriving(pieces)
    }

    predicate Done()
      reads this
    {
      pieces == []
    }

    method ReadSome() returns (piece: string)
      modifies this
      ensures piece == "" ==> old(Future()) == ""
      ensures piece != "" ==> old(Future()) == piece + Future()
      ensures |pieces| < |old(pieces)| || (pieces == old(pieces) == [])
    {
      if pieces == [] { return ""; }
      piece, pieces := pieces[0], pieces[1..];
    }
  }

  /** The bytes delivered before the source ends. */
  function Arriving(pieces: seq<string>): string {
    if pieces == [] || pieces[0] == "" then "" else pieces[0] + Arriving(pieces[1..])
  }

  /** What is left to do, compared lexicographically. */
  datatype Budget = Budget(pieces: nat, open: bool, buffered: nat, rank: nat, pending: nat)

  ghost predicate ScanLess(a: Budget, b: Budget) {
    a.pieces < b.pieces ||
    (a.pieces == b.pieces &&
     ((!a.open && b.open) ||
      (a.open == b.open && (a.buffered < b.buffered || (a.buffered == b.buffered && a.rank < b.rank)))))
  }

  ghost predicate Less(a: Budget, b: Budget) {
    ScanLess(a, b) || (a.(pending := 0) == b.(pending := 0) && a.pending < b.pending)
  }

  /** What one pulled event accounts for: `Accounts` without the requests for more input. */
  ghost predicate Explains(r: Result<Step, Malformed>, before: Meaning, after: Meaning) {
    match r
    case Err(e) => before == Err(e)
    case Ok(step) => before == Reported(step, after)
  }

  /** Where a pulled event leaves the scanner. */
  predicate Moves(r: Result<Step, Malformed>, before: Phase, after: Phase) {
    (before == Finished ==> after == Finished) &&
    match r
    case Err(_) => true
    case Ok(NeedMore) => false
    case Ok(PartBegin(_)) => after == Data && BetweenParts(before)
    case Ok(DataStep(d)) => !BetweenParts(after) && before == Data && d != ""
    case Ok(PartEnd) => after == AfterDelim && !BetweenParts(before)
    case Ok(FinishedStep) => after == Finished && BetweenParts(before)
  }

  datatype ReadError = BadFormat(why: Malformed) | BodyLimit

  /** `NextPart` drops the rest of the current part and opens the next one, or reports the end. */
  ghost predicate Advances(before: Meaning, header: Option<PartHeader>, after: Meaning) {
    match before
    case Err(e) => header.Some? && after == Err(e)
    case Ok(t) =>
      if t.parts == [] then header.None? && after == Ok(Tail("", []))
      else header == Some(t.parts[0].header) && after == Ok(Tail(t.parts[0].data, t.parts[1..]))
  }

  class MultipartReader {
    const body: BodySource
    const scanner: MultipartScanner
    var pending: string
    var partDone: bool
    var finished: bool

    ghost predicate Valid()
      reads this, scanner
    {
      scanner.Valid() &&
      partDone == BetweenParts(scanner.phase) &&
      (pending != "" ==> !partDone) &&
      (finished ==> scanner.phase == Finished)
    }

    /** Bytes the source will still hand over; nothing is read once the end has been seen. */
    ghost function Unread(): string
      reads scanner, body
    {
      if scanner.eof then "" else body.Future()
    }

    ghost function ScannerRest(): Meaning
      reads scanner, body
      requires scanner.Valid()
    {
      MeaningOf(scanner.cfg, scanner.View(), Unread())
    }

    /** What has not been handed to the caller yet: the rest of the current part, then the others. */
    ghost function Rest(): Meaning
      reads this, scanner, body
      requires Valid()
    {
      AddLead(pending, ScannerRest())
    }

    /** The header blocks still to come are within the limit. */
    ghost predicate Fitting()
      reads scanner, body
      requires scanner.Valid()
    {
      Fits(scanner.cfg, scanner.View(), Unread())
    }

    ghost function Left(): Budget
      reads this, scanner, body
      requires scanner.Valid()
    {
      Budget(|body.pieces|, !scanner.eof, |scanner.View().buf|, Rank(scanner.phase), |pending|)
    }

    constructor (body: BodySource, boundary: string)
      ensures Valid() && fresh(scanner) && this.body == body
      ensures scanner.cfg == Config(boundary, DEFAULT_MAX_HEADER)
      ensures Rest() == Whole(scanner.cfg, Preamble, body.Future())
      ensures Fitting() == HeadersFit(scanner.cfg, Preamble, body.Future())
    {
      this.body := body;
      scanner := new MultipartScanner(boundary, DEFAULT_MAX_HEADER);
      pending, partDone, finished := "", true, false;
      new;
      assert "" + body.Future() == body.Future();
      AddNoLead(Whole(scanner.cfg, Preamble, body.Future()));
    }

    /** True when the current part's data has been fully delivered. */
    predicate PartDone()
      reads this
    {
      partDone && pending == ""
    }

    /** `step()`: the next event other than `need_more`, feeding the scanner as needed. */
    method Pull() returns (r: Result<Step, Malformed>)
      requires scanner.Valid()
      modifies scanner, body
      ensures scanner.Valid()
      ensures old(Fitting()) ==> Explains(r, old(ScannerRest()), ScannerRest()) && (r.Ok? ==> Fitting())
      ensures Moves(r, old(scanner.phase), scanner.phase)
      ensures r.Ok? && !r.value.FinishedStep? ==> ScanLess(Left(), old(Left()))
    {
      hide Multipart.Next, Whole, HeadersFit, Find;
      ghost var rest0, fits0, left0, phase0 := ScannerRest(), Fitting(), Left(), scanner.phase;
      while true
        invariant scanner.Valid()
        invariant fits0 ==> Fitting() && ScannerRest() == rest0
        invariant Left() == left0 || ScanLess(Left(), left0)
        invariant scanner.phase == phase0 || (BetweenParts(scanner.phase) && BetweenParts(phase0) && phase0 != Finished)
        decreases |body.pieces|, !scanner.eof
      {
        ghost var before, future := scanner.View(), Unread();
        NextMeaning(scanner.cfg, before, future);
        NextProgress(scanner.cfg, before);
        EventPhase(scanner.cfg, before);
        r := scanner.Next();
        if r != Ok(NeedMore) { return; }
        RankOfNeedMore(scanner.cfg, before);
        if body.Done() {
          scanner.Finish();
        } else {
          var piece := body.ReadSome();
          if piece == "" {
            scanner.Finish();
          } else {
            assert scanner.View().buf + (piece + body.Future()) == (scanner.View().buf + piece) + body.Future();
            scanner.Feed(piece);
          }
        }
      }
    }

    /** Advance to the next part. Returns its headers, or `None` after the last part. */
    method NextPart() returns (r: Result<Option<PartHeader>, ReadError>)
      requires Valid()
      modifies this, scanner, body
      ensures r.Ok? ==> Valid()
      ensures r.Ok? && r.value.None? ==> finished && PartDone()
      ensures r.Ok? && r.value.Some? ==> !partDone && pending == ""
      ensures old(Fitting()) ==>
                match r
                case Err(e) => e.BadFormat? && old(Rest()) == Err(e.why)
                case Ok(header) => Advances(old(Rest()), header, Rest()) && Fitting()
    {
      hide Multipart.Next, Whole, HeadersFit, Find;
      ghost var rest0, fits0 := Rest(), Fitting();
      while true
        invariant scanner.Valid() && (finished ==> scanner.phase == Finished)
        invariant fits0 ==> Fitting() && SameParts(rest0, ScannerRest())
        decreases |body.pieces|, !scanner.eof, |scanner.View().buf|, Rank(scanner.phase)
      {
        pending := "";              // discard unread data of the current part
        ghost var before := ScannerRest();
        var s := Pull();
        if s.Err? { return Err(BadFormat(s.error)); }
        AddNoLead(ScannerRest());
        NothingAfterTheEnd(scanner.cfg, scanner.View().buf + Unread());
        if fits0 { StepAdvances(rest0, before, s.value, ScannerRest()); }
        match s.value
        case PartBegin(h) =>
          partDone := false;
          return Ok(Some(h));
        case FinishedStep =>
          finished := true;
          partDone := true;
          return Ok(None);
        case _ =>                   // data or the end of a part being skipped
      }
    }

    /** Events are pulled until there is data to hand out or the part is done. */
    method Refill() returns (r: Result<bool, ReadError>)
      requires Valid()
      modifies this, scanner, body
      ensures r.Ok? ==> Valid() && (pending != "" || partDone)
      ensures r.Ok? ==> ScanLess(Left(), old(Left())) || Left() == old(Left())
      ensures old(Fitting()) ==>
                match r
                case Err(e) => e.BadFormat? && old(Rest()) == Err(e.why)
                case Ok(_) => Fitting() && Rest() == old(Rest())
    {
      hide Multipart.Next, Whole, HeadersFit, Find;
      ghost var rest0, fits0, left0 := Rest(), Fitting(), Left();
      while pending == "" && !partDone
        invariant Valid()
        invariant fits0 ==> Fitting() && Rest() == rest0
        invariant Left() == left0 || ScanLess(Left(), left0)
        decreases |body.pieces|, !scanner.eof, |scanner.View().buf|, Rank(scanner.phase)
      {
        AddNoLead(ScannerRest());
        var s := Pull();
        if s.Err? { return Err(BadFormat(s.error)); }
        AddNoLead(ScannerRest());
        if s.value.DataStep? { pending := s.value.data; }
        partDone := s.value.PartEnd? || s.value.FinishedStep?;
        finished := finished || s.value.FinishedStep?;
      }
      return Ok(true);
    }

    /** Read at most `max` bytes of the current part; nothing once the part is done. */
    method ReadSome(max: nat) returns (r: Result<string, ReadError>)
      requires Valid()
      modifies this, scanner, body
      ensures r.Ok? ==> Valid() && |r.value| <= max && (r.value == "" && max > 0 ==> PartDone())
      ensures r.Ok? ==> Less(Left(), old(Left())) || (Left() == old(Left()) && r.value == "")
      ensures old(Fitting()) ==>
                match r
                case Err(e) => e.BadFormat? && old(Rest()) == Err(e.why)
                case Ok(data) =>
                  Fitting() && old(Rest()) == AddLead(data, Rest()) &&
                  (PartDone() && Rest().Ok? ==> Rest().value.lead == "")
    {
      hide Multipart.Next, Whole, HeadersFit, Find;
      var filled := Refill();
      if filled.Err? { return Err(filled.error); }
      var n := if max < |pending| then max else |pending|;
      var data := pending[..n];
      SplitLead(pending, n, ScannerRest());
      pending := pending[n..];
      NoLeadBetweenParts(scanner.cfg, if partDone then scanner.phase else PartEnding, scanner.View().buf + Unread());
      return Ok(data);
    }

    /** Read the rest of the current part, bounded by `limit`: fails exactly on longer parts. */
    method ReadAll(limit: nat) returns (r: Result<string, ReadError>)
      requires Valid()
      modifies this, scanner, body
      ensures r.Ok? ==> Valid() && PartDone() && |r.value| <= limit
      ensures old(Fitting()) ==>
                match r
                case Err(BadFormat(why)) => old(Rest()) == Err(why)
                case Err(BodyLimit) => old(Rest()).Ok? ==> |old(Rest()).value.lead| > limit
                case Ok(out) =>
                  Fitting() && old(Rest()) == AddLead(out, Rest()) &&
                  (Rest().Ok? ==> Rest().value.lead == "")
    {
      ghost var rest0, fits0 := Rest(), Fitting();
      var out := "";
      AddNoLead(rest0);
      NoLeadBetweenParts(scanner.cfg, if partDone then scanner.phase else PartEnding, scanner.View().buf + Unread());
      AddNoLead(ScannerRest());
      while !PartDone()
        invariant Valid() && |out| <= limit
        invariant fits0 ==> Fitting() && rest0 == AddLead(out, Rest())
        invariant fits0 && PartDone() && Rest().Ok? ==> Rest().value.lead == ""
        decreases |body.pieces|, !scanner.eof, |scanner.View().buf|, Rank(scanner.phase), |pending|, !PartDone()
      {
        var piece := ReadSome(PIECE);
        if piece.Err? { return Err(piece.error); }
        JoinLead(out, piece.value, Rest());
        out := out + piece.value;
        if |out| > limit { return Err(BodyLimit); }
      }
      return Ok(out);
    }
  }

  /** One pulled event, seen from the parts still to come. */
  lemma StepAdvances(rest0: Meaning, before: Meaning, step: Step, after: Meaning)
    requires SameParts(rest0, before) && before == Reported(step, after)
    ensures step.PartBegin? ==> Advances(rest0, Some(step.header), after)
    ensures step.FinishedStep? && after == Ok(Tail("", [])) ==> Advances(rest0, None, after)
    ensures step.DataStep? || step.PartEnd? ==> SameParts(rest0, after)
  {
  }

  lemma NothingAfterTheEnd(cfg: Config, rest: string)
    ensures Whole(cfg, Finished, rest) == Ok(Tail("", []))
  {
  }

  lemma SplitLead(pending: string, n: nat, rest: Meaning)
    requires n <= |pending|
    ensures AddLead(pending, rest) == AddLead(pending[..n], AddLead(pending[n..], rest))
  {
    assert pending == pending[..n] + pending[n..];
    JoinLead(pending[..n], pending[n..], rest);
  }

  lemma JoinLead(a: string, b: string, rest: Meaning)
    ensures AddLead(a, AddLead(b, rest)) == AddLead(a + b, rest)
  {
    if rest.Ok? { assert a + (b + rest.value.lead) == (a + b) + rest.value.lead; }
  }

  /** The same failure or the same parts after the current one. */
  ghost predicate SameParts(a: Meaning, b: Meaning) {
    match a
    case Err(e) => b == Err(e)
    case Ok(t) => b.Ok? && b.value.parts == t.parts
  }
}
