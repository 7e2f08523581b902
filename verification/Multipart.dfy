/** The multipart delimiter scanner on values, what a whole body means, and chunk invariance.

    A scanner state keeps only the unconsumed bytes: `buf` here is `buf_` from `pos_` on. */
module Multipart {
  import opened Wrappers
  import opened Text
  import opened MultipartHeader

  datatype Config = Config(boundary: string, maxHeader: nat) {
    function FirstDelim(): string { "--" + boundary }
    function Delim(): string { "\r\n--" + boundary }
  }

  const HEADER_END: string := "\r\n\r\n"

  datatype Phase = Preamble | AfterDelim | Headers | Data | PartEnding | Finished

  function Rank(p: Phase): nat {
    match p
    case Preamble => 5
    case Data => 4
    case PartEnding => 3
    case AfterDelim => 2
    case Headers => 1
    case Finished => 0
  }

  datatype Step =
    | NeedMore
    | PartBegin(header: PartHeader)
    | DataStep(data: string)
    | PartEnd
    | FinishedStep

  datatype Scan = Scan(phase: Phase, buf: string, eof: bool)

  const START := Scan(Preamble, "", false)

  /** `next()`: the event, or the failure thrown, and the state it leaves. */
  function Next(cfg: Config, s: Scan): (Result<Step, Malformed>, Scan)
    decreases Rank(s.phase)
  {
    match s.phase
    case Preamble => (
      match Find(s.buf, cfg.FirstDelim())
      case None =>
        if s.eof then (Err(NoOpeningBoundary), s)
        else (Ok(NeedMore), s.(buf := KeepTail(s.buf, |cfg.FirstDelim()|)))
      case Some(i) => Next(cfg, Scan(AfterDelim, s.buf[i + |cfg.FirstDelim()|..], s.eof)))
    case AfterDelim =>
      if |s.buf| < 2 then (if s.eof then Err(TruncatedAfterBoundary) else Ok(NeedMore), s)
      else if s.buf[..2] == "--" then (Ok(FinishedStep), s.(phase := Finished))
      else if s.buf[..2] != CRLF then (Err(BadBoundaryTail), s)
      else Next(cfg, Scan(Headers, s.buf[2..], s.eof))
    case Headers => (
      match Find(s.buf, HEADER_END)
      case None =>
        (if |s.buf| > cfg.maxHeader then Err(HeadersTooLarge)
         else if s.eof then Err(HeadersTruncated)
         else Ok(NeedMore), s)
      case Some(end) =>
        match ParseHeaders(s.buf[..end])
        case Err(e) => (Err(e), s)
        case Ok(h) => (Ok(PartBegin(h)), Scan(Data, s.buf[end + 4..], s.eof)))
    case Data => (
      match Find(s.buf, cfg.Delim())
      case Some(i) =>
        var s1 := Scan(PartEnding, s.buf[i + |cfg.Delim()|..], s.eof);
        if i == 0 then Next(cfg, s1) else (Ok(DataStep(s.buf[..i])), s1)
      case None =>
        var hold := |cfg.Delim()| - 1;
        if s.eof then (Err(NoClosingBoundary), s)
        else if |s.buf| <= hold then (Ok(NeedMore), s)
        else (Ok(DataStep(s.buf[..|s.buf| - hold])), s.(buf := s.buf[|s.buf| - hold..])))
    case PartEnding => (Ok(PartEnd), s.(phase := AfterDelim))
    case Finished => (Ok(FinishedStep), s)
  }

  function KeepTail(s: string, n: nat): (r: string)
    ensures |r| <= n && |r| <= |s|
  {
    if |s| > n then s[|s| - n..] else s
  }

  // ---- What a whole body means --------------------------------------------------

  datatype Part = Part(header: PartHeader, data: string)

  /** What is left of a body: the rest of the part being read, then the parts that follow. */
  datatype Tail = Tail(lead: string, parts: seq<Part>)

  type Meaning = Result<Tail, Malformed>

  function AddLead(d: string, m: Meaning): Meaning {
    match m
    case Err(e) => Err(e)
    case Ok(t) => Ok(Tail(d + t.lead, t.parts))
  }

  function OpenPart(h: PartHeader, m: Meaning): Meaning {
    match m
    case Err(e) => Err(e)
    case Ok(t) => Ok(Tail("", [Part(h, t.lead)] + t.parts))
  }

  /** The reference meaning of the complete remaining input `rest`, read in `phase`. No buffering
      and no size limit on a terminated header block: delimiters cut the text where they occur first. */
  function Whole(cfg: Config, phase: Phase, rest: string): Meaning
    decreases |rest|, Rank(phase)
  {
    match phase
    case Preamble => (
      match Find(rest, cfg.FirstDelim())
      case None => Err(NoOpeningBoundary)
      case Some(i) => Whole(cfg, AfterDelim, rest[i + |cfg.FirstDelim()|..]))
    case AfterDelim =>
      if |rest| < 2 then Err(TruncatedAfterBoundary)
      else if rest[..2] == "--" then Ok(Tail("", []))
      else if rest[..2] != CRLF then Err(BadBoundaryTail)
      else Whole(cfg, Headers, rest[2..])
    case Headers => (
      match Find(rest, HEADER_END)
      case None => Err(if |rest| > cfg.maxHeader then HeadersTooLarge else HeadersTruncated)
      case Some(end) =>
        match ParseHeaders(rest[..end])
        case Err(e) => Err(e)
        case Ok(h) => OpenPart(h, Whole(cfg, Data, rest[end + 4..])))
    case Data => (
      match Find(rest, cfg.Delim())
      case None => Err(NoClosingBoundary)
      case Some(i) => AddLead(rest[..i], Whole(cfg, PartEnding, rest[i + |cfg.Delim()|..])))
    case PartEnding => Whole(cfg, AfterDelim, rest)
    case Finished => Ok(Tail("", []))
  }

  /** Every terminated header block on the way is at least three bytes shorter than the limit. */
  predicate HeadersFit(cfg: Config, phase: Phase, rest: string)
    decreases |rest|, Rank(phase)
  {
    match phase
    case Preamble => (
      match Find(rest, cfg.FirstDelim())
      case None => true
      case Some(i) => HeadersFit(cfg, AfterDelim, rest[i + |cfg.FirstDelim()|..]))
    case AfterDelim =>
      |rest| >= 2 && rest[..2] == CRLF ==> HeadersFit(cfg, Headers, rest[2..])
    case Headers => (
      match Find(rest, HEADER_END)
      case None => true
      case Some(end) => end + 3 <= cfg.maxHeader && HeadersFit(cfg, Data, rest[end + 4..]))
    case Data => (
      match Find(rest, cfg.Delim())
      case None => true
      case Some(i) => HeadersFit(cfg, PartEnding, rest[i + |cfg.Delim()|..]))
    case PartEnding => HeadersFit(cfg, AfterDelim, rest)
    case Finished => true
  }

  // ---- One event against the meaning ------------------------------------------------

  /** The meaning of state `s` with `future` still to be fed. */
  function MeaningOf(cfg: Config, s: Scan, future: string): Meaning {
    Whole(cfg, s.phase, s.buf + future)
  }

  predicate Fits(cfg: Config, s: Scan, future: string) {
    HeadersFit(cfg, s.phase, s.buf + future)
  }

  /** What the rest of the input means once `step` has been reported. */
  function Reported(step: Step, after: Meaning): Meaning {
    match step
    case PartBegin(h) => OpenPart(h, after)
    case DataStep(d) => AddLead(d, after)
    case FinishedStep => Ok(Tail("", []))
    case _ => after
  }

  /** One `next()` accounts for exactly the part of the body it consumes, whatever is to come. Only
      the size failure depends on how much has been fed: it is the body's own once the input has
      ended or the header blocks fit. */
  ghost predicate Accounts(cfg: Config, s: Scan, future: string) {
    var (out, s1) := Next(cfg, s);
    match out
    case Err(e) =>
      s.eof || Fits(cfg, s, future) || e != HeadersTooLarge ==> MeaningOf(cfg, s, future) == Err(e)
    case Ok(step) =>
      MeaningOf(cfg, s, future) == Reported(step, MeaningOf(cfg, s1, future)) &&
      s1.eof == s.eof &&
      (Fits(cfg, s, future) ==> Fits(cfg, s1, future)) &&
      (Fits(cfg, s1, future) && !step.PartBegin? ==> Fits(cfg, s, future))
  }

  /** The heart of chunk invariance. */
  lemma {:induction false} NextMeaning(cfg: Config, s: Scan, future: string)
    requires s.eof ==> future == ""
    ensures Accounts(cfg, s, future)
    decreases Rank(s.phase)
  {
    hide Find;
    match s.phase
    case Preamble =>
      match Find(s.buf, cfg.FirstDelim()) {
        case Some(i) =>
          var s1 := Scan(AfterDelim, s.buf[i + |cfg.FirstDelim()|..], s.eof);
          FoundMeaning(s.buf, future, cfg.FirstDelim());
          NextMeaning(cfg, s1, future);
        case None => PreambleKeeps(cfg, s, future);
      }
    case AfterDelim =>
      if |s.buf| >= 2 && s.buf[..2] == CRLF {
        PrefixDrop(s.buf, future, 2);
        NextMeaning(cfg, Scan(Headers, s.buf[2..], s.eof), future);
      } else {
        AfterDelimMeaning(cfg, s, future);
      }
    case Headers => HeadersMeaning(cfg, s, future);
    case Data => DataMeaning(cfg, s, future);
    case PartEnding =>
    case Finished =>
  }

  lemma AfterDelimMeaning(cfg: Config, s: Scan, future: string)
    requires s.phase == AfterDelim && (|s.buf| < 2 || s.buf[..2] != CRLF)
    requires s.eof ==> future == ""
    ensures Accounts(cfg, s, future)
  {
    if |s.buf| >= 2 {
      PrefixDrop(s.buf, future, 2);
    } else if s.eof {
      assert s.buf + future == s.buf;
    }
  }

  /** A delimiter found in the buffer is the one found in the whole input. */
  lemma FoundMeaning(buf: string, future: string, needle: string)
    requires Find(buf, needle).Some?
    ensures Find(buf + future, needle) == Find(buf, needle)
    ensures var i := Find(buf, needle).value;
            (buf + future)[..i] == buf[..i] &&
            (buf + future)[i + |needle|..] == buf[i + |needle|..] + future
  {
    FindAppend(buf, future, needle);
    PrefixDrop(buf, future, Find(buf, needle).value);
    PrefixDrop(buf, future, Find(buf, needle).value + |needle|);
  }

  lemma PrefixDrop(a: string, b: string, k: nat)
    requires k <= |a|
    ensures (a + b)[..k] == a[..k]
    ensures (a + b)[k..] == a[k..] + b
  {
  }

  /** The preamble may be cut down to a delimiter's length without losing the delimiter. */
  lemma PreambleKeeps(cfg: Config, s: Scan, future: string)
    requires s.phase == Preamble && Find(s.buf, cfg.FirstDelim()).None?
    requires s.eof ==> future == ""
    ensures s.eof ==> MeaningOf(cfg, s, future) == Err(NoOpeningBoundary)
    ensures var s1 := s.(buf := KeepTail(s.buf, |cfg.FirstDelim()|));
            MeaningOf(cfg, s1, future) == MeaningOf(cfg, s, future) &&
            Fits(cfg, s1, future) == Fits(cfg, s, future)
  {
    hide Find;
    var needle := cfg.FirstDelim();
    assert s.buf + "" == s.buf;
    var kept := KeepTail(s.buf, |needle|);
    var k := |s.buf| - |kept|;
    assert kept == s.buf[k..];
    FindDrop(s.buf, future, needle, k);
    PrefixDrop(s.buf, future, k);
    match Find(kept + future, needle) {
      case None =>
      case Some(i) => assert (s.buf + future)[k + i + |needle|..] == (kept + future)[i + |needle|..];
    }
  }

  lemma HeadersMeaning(cfg: Config, s: Scan, future: string)
    requires s.phase == Headers
    requires s.eof ==> future == ""
    ensures Accounts(cfg, s, future)
  {
    hide Find;
    match Find(s.buf, HEADER_END)
    case Some(end) => FoundMeaning(s.buf, future, HEADER_END);
    case None =>
      assert s.buf + "" == s.buf;
      match Find(s.buf + future, HEADER_END) {
        case None =>
        case Some(end) =>
          // A terminator that arrives later ends after the buffer, so the limit is not exceeded yet.
          if end + 4 <= |s.buf| { OccursAtPrefix(s.buf, future, HEADER_END, end); }
      }
  }

  lemma DataMeaning(cfg: Config, s: Scan, future: string)
    requires s.phase == Data
    requires s.eof ==> future == ""
    ensures Accounts(cfg, s, future)
  {
    hide Find;
    var needle := cfg.Delim();
    match Find(s.buf, needle)
    case Some(i) =>
      FoundMeaning(s.buf, future, needle);
      var rest := s.buf[i + |needle|..];
      var s1 := Scan(PartEnding, rest, s.eof);
      AddNoLead(MeaningOf(cfg, s1, future));
      assert MeaningOf(cfg, s, future) == AddLead(s.buf[..i], MeaningOf(cfg, s1, future));
      assert Fits(cfg, s1, future) == Fits(cfg, s, future);
      if i == 0 {
        assert Next(cfg, s) == Next(cfg, s1) == (Ok(PartEnd), Scan(AfterDelim, rest, s.eof));
        assert MeaningOf(cfg, s, future) == MeaningOf(cfg, s1, future);
      }
    case None =>
      assert s.buf + "" == s.buf;
      if !s.eof && |s.buf| >= |needle| {
        var k := |s.buf| - (|needle| - 1);
        FindDrop(s.buf, future, needle, k);
        PrefixDrop(s.buf, future, k);
        DataShift(cfg, s.buf + future, k);
      }
  }

  lemma AddNoLead(m: Meaning)
    ensures AddLead("", m) == m
  {
    if m.Ok? { assert "" + m.value.lead == m.value.lead; }
  }

  /** Delivering the first `k` data bytes early leaves the rest of the part's data in place. */
  lemma DataShift(cfg: Config, rest: string, k: nat)
    requires k <= |rest|
    requires Find(rest, cfg.Delim()) ==
             match Find(rest[k..], cfg.Delim()) case None => None case Some(i) => Some(k + i)
    ensures Whole(cfg, Data, rest) == AddLead(rest[..k], Whole(cfg, Data, rest[k..]))
    ensures HeadersFit(cfg, Data, rest) == HeadersFit(cfg, Data, rest[k..])
  {
    hide Find;
    match Find(rest[k..], cfg.Delim())
    case None =>
    case Some(i) =>
      var n := |cfg.Delim()|;
      Slices(rest, k, i, n);
      LeadSplits(rest[..k], rest[k..][..i], Whole(cfg, PartEnding, rest[k + i + n..]));
  }

  lemma Slices(rest: string, k: nat, i: nat, n: nat)
    requires k + i + n <= |rest|
    ensures rest[k + i + n..] == rest[k..][i + n..] && rest[..k + i] == rest[..k] + rest[k..][..i]
  {
  }

  lemma LeadSplits(a: string, b: string, m: Meaning)
    ensures AddLead(a + b, m) == AddLead(a, AddLead(b, m))
  {
    if m.Ok? { assert a + b + m.value.lead == a + (b + m.value.lead); }
  }

  // ---- Draining a chunked body --------------------------------------------------------

  function Flat(chunks: seq<string>): string {
    if chunks == [] then "" else chunks[0] + Flat(chunks[1..])
  }

  /** Whatever `next()` reports makes progress: it consumes input or moves to a later phase. */
  lemma {:induction false} NextProgress(cfg: Config, s: Scan)
    ensures var (out, s1) := Next(cfg, s);
            s1.eof == s.eof && |s1.buf| <= |s.buf| &&
            (out.Ok? && !out.value.NeedMore? && !out.value.FinishedStep? ==>
               |s1.buf| < |s.buf| || Rank(s1.phase) < Rank(s.phase))
    ensures s.eof ==> Next(cfg, s).0 != Ok(NeedMore)
    decreases Rank(s.phase)
  {
    hide Find, ParseHeaders;
    match s.phase
    case Preamble =>
      var f := Find(s.buf, cfg.FirstDelim());
      if f.Some? { NextProgress(cfg, Scan(AfterDelim, s.buf[f.value + |cfg.FirstDelim()|..], s.eof)); }
    case AfterDelim =>
      if |s.buf| >= 2 && s.buf[..2] == CRLF { NextProgress(cfg, Scan(Headers, s.buf[2..], s.eof)); }
    case Headers =>
    case Data =>
      var f := Find(s.buf, cfg.Delim());
      if f.Some? { NextProgress(cfg, Scan(PartEnding, s.buf[f.value + |cfg.Delim()|..], s.eof)); }
    case PartEnding =>
    case Finished =>
  }

  /** After `need_more` the scanner retains at most the longest of an opening delimiter, an
      unfinished delimiter and a header block within the limit. */
  lemma {:induction false} RetainedIsBounded(cfg: Config, s: Scan)
    requires Next(cfg, s).0 == Ok(NeedMore)
    ensures var kept := |Next(cfg, s).1.buf|;
            match Next(cfg, s).1.phase
            case Preamble => kept <= |cfg.FirstDelim()|
            case AfterDelim => kept < 2
            case Headers => kept <= cfg.maxHeader
            case Data => kept < |cfg.Delim()|
            case _ => false
    decreases Rank(s.phase)
  {
    match s.phase
    case Preamble =>
      var f := Find(s.buf, cfg.FirstDelim());
      if f.Some? { RetainedIsBounded(cfg, Scan(AfterDelim, s.buf[f.value + |cfg.FirstDelim()|..], s.eof)); }
    case AfterDelim =>
      if |s.buf| >= 2 { RetainedIsBounded(cfg, Scan(Headers, s.buf[2..], s.eof)); }
    case _ =>
  }

  /** The pull loop: report events until the input runs dry, then feed the next chunk, or finish. */
  function Drain(cfg: Config, s: Scan, chunks: seq<string>): Meaning
    decreases |chunks|, !s.eof, |s.buf|, Rank(s.phase)
  {
    NextProgress(cfg, s);
    var (out, s1) := Next(cfg, s);
    match out
    case Err(e) => Err(e)
    case Ok(NeedMore) =>
      if chunks != [] then Drain(cfg, s1.(buf := s1.buf + chunks[0]), chunks[1..])
      else if s.eof then assert false; Err(NoClosingBoundary)
      else Drain(cfg, s1.(eof := true), [])
    case Ok(FinishedStep) => Ok(Tail("", []))
    case Ok(step) => Reported(step, Drain(cfg, s1, chunks))
  }

  /** Chunking does not matter: from any state, draining any chunks gives the meaning of what is
      left of the body, when its header blocks fit. */
  lemma {:induction false} DrainIsMeaning(cfg: Config, s: Scan, chunks: seq<string>)
    requires s.eof ==> chunks == []
    requires s.eof || Fits(cfg, s, Flat(chunks))
    ensures Drain(cfg, s, chunks) == MeaningOf(cfg, s, Flat(chunks))
    decreases |chunks|, !s.eof, |s.buf|, Rank(s.phase)
  {
    NextProgress(cfg, s);
    NextMeaning(cfg, s, Flat(chunks));
    var (out, s1) := Next(cfg, s);
    match out
    case Err(e) =>
    case Ok(NeedMore) =>
      if chunks != [] {
        assert s1.buf + Flat(chunks) == (s1.buf + chunks[0]) + Flat(chunks[1..]);
        DrainIsMeaning(cfg, s1.(buf := s1.buf + chunks[0]), chunks[1..]);
      } else {
        DrainIsMeaning(cfg, s1.(eof := true), []);
      }
    case Ok(FinishedStep) =>
    case Ok(step) => DrainIsMeaning(cfg, s1, chunks);
  }

  /** `parse_multipart`: the whole body as one chunk, then the end. */
  function ParseWhole(cfg: Config, body: string): Meaning {
    Drain(cfg, Scan(Preamble, body, true), [])
  }

  /** A body fed at once has the reference meaning, whether or not its header blocks fit. */
  lemma ParseWholeIsMeaning(cfg: Config, body: string)
    ensures ParseWhole(cfg, body) == Whole(cfg, Preamble, body)
  {
    assert body + Flat([]) == body;
    DrainIsMeaning(cfg, Scan(Preamble, body, true), []);
  }

  // ---- When chunking does matter --------------------------------------------------------

  function Bytes(s: string): (chunks: seq<string>)
    ensures |chunks| == |s|
    ensures forall i | 0 <= i < |s| :: chunks[i] == [s[i]]
  {
    seq(|s|, i requires 0 <= i < |s| => [s[i]])
  }

  lemma {:induction false} FlatBytes(s: string)
    ensures Flat(Bytes(s)) == s
  {
    if s != "" {
      assert Bytes(s)[1..] == Bytes(s[1..]);
      FlatBytes(s[1..]);
    }
  }

  /** The buffer is one byte past a point where the scanner asked for more. */
  ghost predicate OneBytePast(cfg: Config, s: Scan) {
    s.buf == "" ||
    var before := s.buf[..|s.buf| - 1];
    match s.phase
    case Preamble => Find(before, cfg.FirstDelim()).None?
    case AfterDelim => |s.buf| <= 2
    case Headers => Find(before, HEADER_END).None? && |before| <= cfg.maxHeader
    case Data => Find(before, cfg.Delim()).None?
    case PartEnding => false
    case Finished => false
  }

  /** A delimiter absent one byte ago can only end at the end of the buffer. */
  lemma FoundAtEnd(buf: string, needle: string)
    requires buf != "" && Find(buf[..|buf| - 1], needle).None?
    ensures Find(buf, needle).Some? ==> Find(buf, needle).value + |needle| == |buf|
  {
    var i := Find(buf, needle);
    if i.Some? && i.value + |needle| < |buf| {
      var before := buf[..|buf| - 1];
      assert before + [buf[|buf| - 1]] == buf;
      OccursAtPrefix(before, [buf[|buf| - 1]], needle, i.value);
    }
  }

  lemma NoneInSlice(s: string, needle: string, lo: nat, hi: nat)
    requires lo <= hi <= |s| && Find(s, needle).None?
    ensures Find(s[lo..hi], needle).None?
  {
    var r := Find(s[lo..hi], needle);
    if r.Some? {
      assert s[lo..hi] + s[hi..] == s[lo..];
      OccursAtPrefix(s[lo..hi], s[hi..], needle, r.value);
      OccursAtDrop(s, needle, lo, r.value);
    }
  }

  /** What one event does while an oversized header block is still to come. */
  ghost predicate StaysOversized(cfg: Config, s: Scan, future: string) {
    var (out, s1) := Next(cfg, s);
    match out
    case Err(e) => e == HeadersTooLarge
    case Ok(step) =>
      !Fits(cfg, s1, future) && !s1.eof && !step.FinishedStep? && OneBytePast(cfg, s1) &&
      (step.NeedMore? ==> forall c: char {:trigger [c]} :: OneBytePast(cfg, s1.(buf := s1.buf + [c])))
  }

  /** Fed byte by byte, a header block that does not fit is never seen whole: either the size check
      fails, or the block is still to come. */
  lemma {:induction false} OneByteStep(cfg: Config, s: Scan, future: string)
    requires !s.eof && OneBytePast(cfg, s)
    requires !Fits(cfg, s, future) && MeaningOf(cfg, s, future).Ok?
    ensures StaysOversized(cfg, s, future)
  {
    hide Find;
    NextMeaning(cfg, s, future);
    match s.phase
    case Preamble => OneBytePreamble(cfg, s, future);
    case AfterDelim => OneByteAfterDelim(cfg, s, future);
    case Headers => OneByteHeaders(cfg, s, future);
    case Data => OneByteData(cfg, s, future);
    case PartEnding => AfterOneByte(Scan(AfterDelim, "", false), cfg);
    case Finished =>
  }

  /** Where the scanner asks for more, one more byte leaves it one byte past. */
  lemma AfterOneByte(s: Scan, cfg: Config)
    requires match s.phase
             case Preamble => Find(s.buf, cfg.FirstDelim()).None?
             case AfterDelim => |s.buf| < 2
             case Headers => Find(s.buf, HEADER_END).None? && |s.buf| <= cfg.maxHeader
             case Data => Find(s.buf, cfg.Delim()).None?
             case _ => false
    ensures OneBytePast(cfg, s)
    ensures forall c: char {:trigger [c]} :: OneBytePast(cfg, s.(buf := s.buf + [c]))
  {
    hide Find;
    forall c: char ensures OneBytePast(cfg, s.(buf := s.buf + [c])) {
      assert (s.buf + [c])[..|s.buf|] == s.buf;
    }
    if s.buf != "" {
      match s.phase {
        case Preamble => NoneInSlice(s.buf, cfg.FirstDelim(), 0, |s.buf| - 1);
        case Headers => NoneInSlice(s.buf, HEADER_END, 0, |s.buf| - 1);
        case Data => NoneInSlice(s.buf, cfg.Delim(), 0, |s.buf| - 1);
        case _ =>
      }
    }
  }

  lemma OneBytePreamble(cfg: Config, s: Scan, future: string)
    requires s.phase == Preamble && !s.eof && OneBytePast(cfg, s)
    requires !Fits(cfg, s, future) && MeaningOf(cfg, s, future).Ok?
    requires Accounts(cfg, s, future)
    ensures StaysOversized(cfg, s, future)
  {
    hide Find;
    match Find(s.buf, cfg.FirstDelim())
    case Some(i) =>
      FoundAtEnd(s.buf, cfg.FirstDelim());
      assert s.buf[i + |cfg.FirstDelim()|..] == "";
      assert Next(cfg, Scan(AfterDelim, "", false)) == (Ok(NeedMore), Scan(AfterDelim, "", false));
      AfterOneByte(Scan(AfterDelim, "", false), cfg);
    case None =>
      var kept := KeepTail(s.buf, |cfg.FirstDelim()|);
      NoneInSlice(s.buf, cfg.FirstDelim(), |s.buf| - |kept|, |s.buf|);
      assert s.buf[|s.buf| - |kept|..|s.buf|] == kept;
      AfterOneByte(s.(buf := kept), cfg);
  }

  lemma OneByteAfterDelim(cfg: Config, s: Scan, future: string)
    requires s.phase == AfterDelim && !s.eof && OneBytePast(cfg, s)
    requires !Fits(cfg, s, future) && MeaningOf(cfg, s, future).Ok?
    requires Accounts(cfg, s, future)
    ensures StaysOversized(cfg, s, future)
  {
    if |s.buf| < 2 {
      AfterOneByte(s, cfg);
    } else {
      PrefixDrop(s.buf, future, 2);
      assert Find("", HEADER_END).None?;
      AfterOneByte(Scan(Headers, "", false), cfg);
    }
  }

  lemma OneByteHeaders(cfg: Config, s: Scan, future: string)
    requires s.phase == Headers && !s.eof && OneBytePast(cfg, s)
    requires !Fits(cfg, s, future) && MeaningOf(cfg, s, future).Ok?
    requires Accounts(cfg, s, future)
    ensures StaysOversized(cfg, s, future)
  {
    hide ParseHeaders;
    match Find(s.buf, HEADER_END)
    case Some(end) =>
      FoundAtEnd(s.buf, HEADER_END);
      FoundMeaning(s.buf, future, HEADER_END);
      assert Find("", cfg.Delim()).None?;
      AfterOneByte(Scan(Data, "", false), cfg);
    case None =>
      if |s.buf| <= cfg.maxHeader { AfterOneByte(s, cfg); }
  }

  lemma OneByteData(cfg: Config, s: Scan, future: string)
    requires s.phase == Data && !s.eof && OneBytePast(cfg, s)
    requires !Fits(cfg, s, future) && MeaningOf(cfg, s, future).Ok?
    requires Accounts(cfg, s, future)
    ensures StaysOversized(cfg, s, future)
  {
    hide Find;
    match Find(s.buf, cfg.Delim())
    case Some(i) =>
      FoundAtEnd(s.buf, cfg.Delim());
      assert s.buf[i + |cfg.Delim()|..] == "";
      if i == 0 { assert Next(cfg, s) == (Ok(PartEnd), Scan(AfterDelim, "", false)); }
      AfterOneByte(Scan(AfterDelim, "", false), cfg);
    case None =>
      var hold := |cfg.Delim()| - 1;
      if |s.buf| > hold {
        NoneInSlice(s.buf, cfg.Delim(), |s.buf| - hold, |s.buf|);
        AfterOneByte(s.(buf := s.buf[|s.buf| - hold..]), cfg);
      } else {
        AfterOneByte(s, cfg);
      }
  }

  lemma {:induction false} OneByteDrain(cfg: Config, s: Scan, rest: string)
    requires !s.eof && OneBytePast(cfg, s)
    requires !Fits(cfg, s, rest) && MeaningOf(cfg, s, rest).Ok?
    ensures Drain(cfg, s, Bytes(rest)) == Err(HeadersTooLarge)
    decreases |rest|, |s.buf|, Rank(s.phase)
  {
    NextProgress(cfg, s);
    NextMeaning(cfg, s, rest);
    OneByteStep(cfg, s, rest);
    var (out, s1) := Next(cfg, s);
    match out
    case Err(e) =>
    case Ok(NeedMore) =>
      if rest == "" {
        // The end of the input changes no meaning, and now the scanner must decide.
        assert s1.buf + rest == s1.buf;
        FinishedDecides(cfg, s1);
      } else {
        assert Bytes(rest)[1..] == Bytes(rest[1..]);
        assert s1.buf + rest == (s1.buf + [rest[0]]) + rest[1..];
        OneByteDrain(cfg, s1.(buf := s1.buf + [rest[0]]), rest[1..]);
      }
    case Ok(FinishedStep) =>
    case Ok(step) => OneByteDrain(cfg, s1, rest);
  }

  /** Where more is asked for, nothing oversized is hidden in the buffer. */
  lemma FinishedDecides(cfg: Config, s: Scan)
    requires OneBytePast(cfg, s) && forall c: char {:trigger [c]} :: OneBytePast(cfg, s.(buf := s.buf + [c]))
    requires MeaningOf(cfg, s, "").Ok?
    ensures Fits(cfg, s, "")
  {
    assert s.buf + "" == s.buf;
    var next := s.(buf := s.buf + [' ']);
    assert next.buf[..|s.buf|] == s.buf;
    assert OneBytePast(cfg, next);
  }

  /** Chunk invariance, exactly: for a body that parses, every way of splitting it into feeds gives
      the same headers and the same data as parsing it whole, if and only if each of its header
      blocks is at least three bytes shorter than the limit. */
  lemma ChunkInvariance(cfg: Config, body: string)
    requires ParseWhole(cfg, body).Ok?
    ensures (forall chunks: seq<string> | Flat(chunks) == body :: Drain(cfg, START, chunks) == ParseWhole(cfg, body))
            <==> HeadersFit(cfg, Preamble, body)
  {
    ParseWholeIsMeaning(cfg, body);
    assert START.buf + body == body;
    if HeadersFit(cfg, Preamble, body) {
      forall chunks: seq<string> | Flat(chunks) == body
        ensures Drain(cfg, START, chunks) == ParseWhole(cfg, body)
      {
        DrainIsMeaning(cfg, START, chunks);
      }
    } else {
      FlatBytes(body);
      OneByteDrain(cfg, START, body);
    }
  }

  /** When the header blocks fit, chunking is invisible for malformed bodies too: the same failure. */
  lemma ChunkInvarianceOfFailures(cfg: Config, chunks: seq<string>)
    requires HeadersFit(cfg, Preamble, Flat(chunks))
    ensures Drain(cfg, START, chunks) == ParseWhole(cfg, Flat(chunks))
  {
    ParseWholeIsMeaning(cfg, Flat(chunks));
    assert START.buf + Flat(chunks) == Flat(chunks);
    DrainIsMeaning(cfg, START, chunks);
  }
}
