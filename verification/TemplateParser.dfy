/** `parse_template`: the path-template state machine, and exactly which texts it accepts. */
module TemplateParser {
  import opened Wrappers
  import Strings = Text

  predicate IsAlpha(c: char) { 'a' <= c <= 'z' || 'A' <= c <= 'Z' }

  predicate IsDigit(c: char) { '0' <= c <= '9' }

  predicate IsAlphaNum(c: char) { IsAlpha(c) || IsDigit(c) }

  predicate LiteralChar(c: char) {
    IsAlphaNum(c) ||
    c == '-' || c == '.' || c == '_' || c == '~' || c == '!' || c == '$' || c == '&' || c == '\'' || c == '(' ||
    c == ')' || c == '*' || c == '+' || c == ',' || c == ';' || c == '=' || c == ':' || c == '@'
  }

  predicate ParamStart(c: char) { IsAlpha(c) || c == '_' }

  predicate ParamChar(c: char) { IsAlphaNum(c) || c == '-' || c == '.' || c == '_' || c == '~' }

  /** The character sets, written out: the unreserved characters, sub-delimiters, `:` and `@` of section 3.3
      of RFC 3986 in literals, and in names its unreserved characters after a letter or an underscore. */
  lemma CharacterSets(c: char)
    ensures LiteralChar(c) <==>
              c in Strings.LOWER || c in Strings.UPPER || c in Strings.DIGITS || c in "-._~" || c in "!$&'()*+,;=" || c in ":@"
    ensures ParamStart(c) <==> c in Strings.LOWER || c in Strings.UPPER || c == '_'
    ensures ParamChar(c) <==> c in Strings.LOWER || c in Strings.UPPER || c in Strings.DIGITS || c in "-._~"
  {
    Strings.LowerLetters(c);
    Strings.UpperLetters(c);
    Strings.DecimalDigits(c);
  }

  datatype Kind = Literal | Param | Greedy

  datatype Segment = Segment(kind: Kind, value: string)

  datatype TemplateError = NoAbsoluteTemplate | InvalidTemplate

  type Parsed = Result<seq<Segment>, TemplateError>

  // ---- The machine on values ------------------------------------------------------------

  /** The state, with the text of the segment being read. */
  datatype State =
    | Start
    | StartSegment
    | StartParam
    | StartGreedy
    | InParam(greedy: bool, value: string)
    | EndParam
    | InLiteral(value: string)

  /** What one character does: fail, or move on and push the segments it completes. */
  datatype Next = Fail(error: TemplateError) | Go(st: State, pushed: seq<Segment>)

  function Step(st: State, c: char): Next {
    match st
    case Start => if c != '/' then Fail(NoAbsoluteTemplate) else Go(StartSegment, [])
    case StartSegment =>
      if c == '/' then Go(StartSegment, [])
      else if c == '{' then Go(StartParam, [])
      else if LiteralChar(c) then Go(InLiteral([c]), [])
      else Fail(InvalidTemplate)
    case StartParam =>
      if c == '*' then Go(StartGreedy, [])
      else if ParamStart(c) then Go(InParam(false, [c]), [])
      else Fail(InvalidTemplate)
    case StartGreedy => if ParamStart(c) then Go(InParam(true, [c]), []) else Fail(InvalidTemplate)
    case InParam(greedy, value) =>
      if c == '}' then Go(EndParam, [Segment(if greedy then Greedy else Param, value)])
      else if ParamChar(c) then Go(InParam(greedy, value + [c]), [])
      else Fail(InvalidTemplate)
    case EndParam => if c == '/' then Go(StartSegment, []) else Fail(InvalidTemplate)
    case InLiteral(value) =>
      if c == '/' then Go(StartSegment, [Segment(Literal, value)])
      else if LiteralChar(c) then Go(InLiteral(value + [c]), [])
      else Fail(InvalidTemplate)
  }

  /** Reads `rest` on from a state with `segments` already pushed. */
  function Scan(st: State, segments: seq<Segment>, rest: string): Parsed
    decreases |rest|
  {
    if rest == "" then AtEnd(st, segments)
    else
      match Step(st, rest[0])
      case Fail(e) => Err(e)
      case Go(st1, pushed) => Scan(st1, segments + pushed, rest[1..])
  }

  function AtEnd(st: State, segments: seq<Segment>): Parsed {
    match st
    case Start => Err(NoAbsoluteTemplate)
    case InLiteral(value) => Ok(segments + [Segment(Literal, value)])
    case StartSegment => Ok(segments)
    case EndParam => Ok(segments)
    case _ => Err(InvalidTemplate)
  }

  function Parse(path: string): Parsed {
    Scan(Start, [], path)
  }

  /** A template that does not start with a slash is not absolute; everything else that is wrong with it
      makes it invalid. */
  lemma {:induction false} ErrorsTellApart(path: string)
    ensures Parse(path) == Err(NoAbsoluteTemplate) <==> path == "" || path[0] != '/'
  {
    var none: seq<Segment> := [];
    assert none + none == none;
    if path != "" && path[0] == '/' { NeverAbsoluteLater(StartSegment, none, path[1..]); }
  }

  lemma {:induction false} NeverAbsoluteLater(st: State, segments: seq<Segment>, rest: string)
    requires st != Start
    ensures Scan(st, segments, rest) != Err(NoAbsoluteTemplate)
    decreases |rest|
  {
    if rest != "" {
      match Step(st, rest[0])
      case Fail(_) =>
      case Go(st1, pushed) => NeverAbsoluteLater(st1, segments + pushed, rest[1..]);
    }
  }

  // ---- The loop ------------------------------------------------------------------------------

  datatype Mode = AtStart | AtSegment | AtParam | AtGreedy | ReadingParam | AfterParam | ReadingLiteral

  ghost function Abstract(mode: Mode, greedy: bool, value: string): State {
    match mode
    case AtStart => Start
    case AtSegment => StartSegment
    case AtParam => StartParam
    case AtGreedy => StartGreedy
    case ReadingParam => InParam(greedy, value)
    case AfterParam => EndParam
    case ReadingLiteral => InLiteral(value)
  }

  method ParseTemplate(path: string) returns (r: Parsed)
    ensures r == Parse(path)
  {
    var mode := AtStart;
    var result: seq<Segment> := [];
    var valueBegin := 0;
    var isGreedy := false;
    for i := 0 to |path|
      invariant valueBegin <= i
      invariant Scan(Abstract(mode, isGreedy, path[valueBegin..i]), result, path[i..]) == Parse(path)
    {
      var c := path[i];
      assert path[i..][0] == c && path[i..][1..] == path[i + 1..];
      assert path[valueBegin..i + 1] == path[valueBegin..i] + [c];
      assert path[i..i + 1] == [c];
      assert result + [] == result;
      match mode {
        case AtStart =>
          if c != '/' { return Err(NoAbsoluteTemplate); }
          mode := AtSegment;
        case AtSegment =>
          if c == '/' {                        // extra slashes are ignored
          } else if c == '{' {
            mode := AtParam;
          } else if LiteralChar(c) {
            valueBegin := i;
            mode := ReadingLiteral;
          } else {
            return Err(InvalidTemplate);
          }
        case AtParam =>
          if c == '*' {
            mode := AtGreedy;
          } else if ParamStart(c) {
            isGreedy := false;
            valueBegin := i;
            mode := ReadingParam;
          } else {
            return Err(InvalidTemplate);
          }
        case AtGreedy =>
          if !ParamStart(c) { return Err(InvalidTemplate); }
          isGreedy := true;
          valueBegin := i;
          mode := ReadingParam;
        case ReadingParam =>
          if c == '}' {
            result := result + [Segment(if isGreedy then Greedy else Param, path[valueBegin..i])];
            mode := AfterParam;
          } else if !ParamChar(c) {
            return Err(InvalidTemplate);
          }
        case AfterParam =>
          if c != '/' { return Err(InvalidTemplate); }
          mode := AtSegment;
        case ReadingLiteral =>
          if c == '/' {
            result := result + [Segment(Literal, path[valueBegin..i])];
            mode := AtSegment;
          } else if !LiteralChar(c) {
            return Err(InvalidTemplate);
          }
      }
    }
    assert path[|path|..] == "" && path[valueBegin..|path|] == path[valueBegin..];
    match mode {
      case AtStart => return Err(NoAbsoluteTemplate);
      case ReadingLiteral => return Ok(result + [Segment(Literal, path[valueBegin..])]);
      case AtSegment => return Ok(result);
      case AfterParam => return Ok(result);
      case _ => return Err(InvalidTemplate);
    }
  }

  // ---- Printing --------------------------------------------------------------------------------

  function Text(s: Segment): string {
    match s.kind
    case Literal => s.value
    case Param => "{" + s.value + "}"
    case Greedy => "{*" + s.value + "}"
  }

  function PrintAll(segments: seq<Segment>): string {
    if segments == [] then "" else PrintAll(segments[..|segments| - 1]) + "/" + Text(segments[|segments| - 1])
  }

  function Print(segments: seq<Segment>): string {
    if segments == [] then "/" else PrintAll(segments)
  }

  predicate ValidSegment(s: Segment) {
    s.value != "" &&
    match s.kind
    case Literal => forall c <- s.value :: LiteralChar(c)
    case _ => ParamStart(s.value[0]) && forall c <- s.value :: ParamChar(c)
  }

  predicate ValidSegments(segments: seq<Segment>) {
    forall s <- segments :: ValidSegment(s)
  }

  /** `t` with runs of slashes made one, the first slash dropped too if one came just before. */
  function Squeeze(afterSlash: bool, t: string): string
    decreases |t|
  {
    if t == "" then ""
    else if afterSlash && t[0] == '/' then Squeeze(true, t[1..])
    else [t[0]] + Squeeze(t[0] == '/', t[1..])
  }

  function DropTrailingSlash(t: string): string {
    if |t| > 1 && t[|t| - 1] == '/' then t[..|t| - 1] else t
  }

  /** Repeated slashes made one, and a trailing one dropped unless it is all there is. */
  function Collapse(t: string): string {
    DropTrailingSlash(Squeeze(false, t))
  }

  // ---- Accepted texts are the printed ones ------------------------------------------------------

  /** What has been read of the current segment, with its slash. */
  function Pending(st: State): string {
    match st
    case Start => ""
    case StartSegment => "/"
    case StartParam => "/{"
    case StartGreedy => "/{*"
    case InParam(greedy, value) => (if greedy then "/{*" else "/{") + value
    case EndParam => ""
    case InLiteral(value) => "/" + value
  }

  /** Everything read so far, as it is printed. */
  function Read(st: State, segments: seq<Segment>): string {
    PrintAll(segments) + Pending(st)
  }

  predicate ValidState(st: State, segments: seq<Segment>) {
    ValidSegments(segments) &&
    match st
    case Start => segments == []
    case InParam(_, value) => ValidSegment(Segment(Param, value))
    case EndParam => segments != []
    case InLiteral(value) => ValidSegment(Segment(Literal, value))
    case _ => true
  }

  /** Each character is read as itself, except a slash right after a slash. */
  lemma StepReads(st: State, segments: seq<Segment>, c: char)
    requires ValidState(st, segments) && Step(st, c).Go?
    ensures var Go(st1, pushed) := Step(st, c);
            ValidState(st1, segments + pushed) &&
            (st1 == StartSegment <==> c == '/') &&
            Read(st1, segments + pushed) ==
              Read(st, segments) + if st == StartSegment && c == '/' then "" else [c]
  {
    var Go(st1, pushed) := Step(st, c);
    if pushed == [] {
      assert segments + pushed == segments;
      PendingGrows(st, c);
    } else {
      PushReads(st, segments, c);
    }
  }

  lemma PendingGrows(st: State, c: char)
    requires Step(st, c).Go? && Step(st, c).pushed == []
    ensures Pending(Step(st, c).st) == Pending(st) + if st == StartSegment && c == '/' then "" else [c]
  {
  }

  lemma PushReads(st: State, segments: seq<Segment>, c: char)
    requires ValidState(st, segments) && Step(st, c).Go? && Step(st, c).pushed != []
    ensures var Go(st1, pushed) := Step(st, c);
            ValidState(st1, segments + pushed) && st != StartSegment &&
            Read(st1, segments + pushed) == Read(st, segments) + [c]
  {
    var Go(st1, pushed) := Step(st, c);
    var s := pushed[0];
    var all := segments + pushed;
    assert all[..|all| - 1] == segments && all[|all| - 1] == s;
    assert "/" + Text(s) + Pending(st1) == Pending(st) + [c];
    Reassemble(PrintAll(segments), Text(s), Pending(st1), Pending(st), c);
  }

  lemma Reassemble(all: string, text: string, after: string, before: string, c: char)
    requires "/" + text + after == before + [c]
    ensures (all + "/" + text) + after == (all + before) + [c]
  {
    assert (all + "/" + text) + after == all + ("/" + text + after);
  }

  lemma {:induction false} PrintAllEnds(segments: seq<Segment>)
    requires segments != [] && ValidSegments(segments)
    ensures |PrintAll(segments)| > 1 && PrintAll(segments)[|PrintAll(segments)| - 1] != '/'
  {
    var s := segments[|segments| - 1];
    assert ValidSegment(s);
    TextEnds(s);
  }

  lemma TextEnds(s: Segment)
    requires ValidSegment(s)
    ensures Text(s) != "" && Text(s)[|Text(s)| - 1] != '/'
  {
    if s.kind == Literal { assert LiteralChar(s.value[|s.value| - 1]); }
  }

  lemma EndIsPrinted(st: State, segments: seq<Segment>)
    requires ValidState(st, segments) && AtEnd(st, segments).Ok?
    ensures var all := AtEnd(st, segments).value;
            ValidSegments(all) && DropTrailingSlash(Read(st, segments)) == Print(all)
  {
    hide ValidSegment, PrintAll;
    match st
    case StartSegment =>
      if segments == [] {
        NothingPrinted();
      } else {
        PrintAllEnds(segments);
      }
    case EndParam =>
      PrintAllEnds(segments);
      assert PrintAll(segments) + "" == PrintAll(segments);
    case InLiteral(value) => EndOfLiteral(segments, value);
  }

  lemma NothingPrinted()
    ensures PrintAll([]) == "" && DropTrailingSlash("" + "/") == "/"
  {
    assert "" + "/" == "/";
  }

  lemma EndOfLiteral(segments: seq<Segment>, value: string)
    requires ValidSegments(segments) && ValidSegment(Segment(Literal, value))
    ensures var all := segments + [Segment(Literal, value)];
            ValidSegments(all) && DropTrailingSlash(PrintAll(segments) + ("/" + value)) == Print(all)
  {
    var s := Segment(Literal, value);
    var all := segments + [s];
    assert all[..|all| - 1] == segments && all[|all| - 1] == s;
    assert PrintAll(all) == PrintAll(segments) + ("/" + value);
    PrintAllEnds(all);
  }

  /** Whatever is accepted prints back as the text read, collapsed. */
  lemma {:induction false} AcceptedIsPrinted(st: State, segments: seq<Segment>, rest: string)
    requires ValidState(st, segments) && Scan(st, segments, rest).Ok?
    ensures var all := Scan(st, segments, rest).value;
            ValidSegments(all) &&
            DropTrailingSlash(Read(st, segments) + Squeeze(st == StartSegment, rest)) == Print(all)
    decreases |rest|
  {
    hide Step, Read, ValidState, AtEnd, DropTrailingSlash, Print;
    if rest == "" {
      EndIsPrinted(st, segments);
      assert Read(st, segments) + "" == Read(st, segments);
    } else {
      var c, tail := rest[0], rest[1..];
      var Go(st1, pushed) := Step(st, c);
      StepReads(st, segments, c);
      AcceptedIsPrinted(st1, segments + pushed, tail);
      var more := Squeeze(c == '/', tail);
      var kept := if st == StartSegment && c == '/' then "" else [c];
      assert Squeeze(st == StartSegment, rest) == kept + more;
      assert (Read(st, segments) + kept) + more == Read(st, segments) + (kept + more);
    }
  }

  // ---- Printed texts are accepted -----------------------------------------------------------------

  /** Reading a value of allowed characters just grows it. */
  lemma {:induction false} ScanLiteral(value: string, more: string, segments: seq<Segment>, rest: string)
    requires forall c <- more :: LiteralChar(c)
    ensures Scan(InLiteral(value), segments, more + rest) == Scan(InLiteral(value + more), segments, rest)
    decreases |more|
  {
    if more == "" {
      assert more + rest == rest && value + more == value;
    } else {
      var text := more + rest;
      assert text[0] == more[0] && text[1..] == more[1..] + rest;
      assert (value + [more[0]]) + more[1..] == value + more;
      assert segments + [] == segments;
      assert LiteralChar(more[0]) && Step(InLiteral(value), more[0]) == Go(InLiteral(value + [more[0]]), []);
      ScanLiteral(value + [more[0]], more[1..], segments, rest);
    }
  }

  lemma {:induction false} ScanParam(greedy: bool, value: string, more: string, segments: seq<Segment>, rest: string)
    requires forall c <- more :: ParamChar(c)
    ensures Scan(InParam(greedy, value), segments, more + rest) == Scan(InParam(greedy, value + more), segments, rest)
    decreases |more|
  {
    if more == "" {
      assert more + rest == rest && value + more == value;
    } else {
      var text := more + rest;
      assert text[0] == more[0] && text[1..] == more[1..] + rest;
      assert (value + [more[0]]) + more[1..] == value + more;
      assert segments + [] == segments;
      assert ParamChar(more[0]) && Step(InParam(greedy, value), more[0]) == Go(InParam(greedy, value + [more[0]]), []);
      ScanParam(greedy, value + [more[0]], more[1..], segments, rest);
    }
  }

  /** The printed text from a slash on. */
  function PrintFrom(segments: seq<Segment>): string {
    if segments == [] then "" else "/" + (Text(segments[0]) + PrintFrom(segments[1..]))
  }

  lemma {:induction false} PrintAllFrom(done: seq<Segment>, segments: seq<Segment>)
    ensures PrintAll(done + segments) == PrintAll(done) + PrintFrom(segments)
    decreases |segments|
  {
    if segments == [] {
      assert done + segments == done && PrintAll(done) + "" == PrintAll(done);
    } else {
      var s := segments[0];
      var more := done + [s];
      assert more[..|more| - 1] == done && more[|more| - 1] == s;
      assert more + segments[1..] == done + segments;
      PrintAllFrom(more, segments[1..]);
      Strings.Regroup(PrintAll(done) + "/", Text(s), PrintFrom(segments[1..]));
      Strings.Regroup(PrintAll(done), "/", Text(s) + PrintFrom(segments[1..]));
    }
  }

  /** A state in which a slash, or the end, completes the segments `done`. */
  predicate Completes(st: State, segments: seq<Segment>, done: seq<Segment>) {
    match st
    case Start => segments == done == []
    case EndParam => segments == done
    case InLiteral(value) => done == segments + [Segment(Literal, value)]
    case _ => false
  }

  lemma {:induction false} PrintedIsAccepted(st: State, segments: seq<Segment>, done: seq<Segment>, more: seq<Segment>)
    requires Completes(st, segments, done) && ValidSegments(more) && (st == Start ==> more != [])
    ensures Scan(st, segments, PrintFrom(more)) == Ok(done + more)
    decreases |more|
  {
    hide ValidSegment, LiteralChar, ParamChar, ParamStart;
    if more == [] {
      assert done + more == done;
    } else {
      var s, rest := more[0], PrintFrom(more[1..]);
      assert ValidSegment(s);
      var text := PrintFrom(more);
      assert text[0] == '/' && text[1..] == Text(s) + rest;
      assert segments + [] == segments;
      assert Scan(st, segments, text) == Scan(StartSegment, done, Text(s) + rest);
      assert (done + [s]) + more[1..] == done + more;
      if s.kind == Literal {
        LiteralIsAccepted(done, s.value, rest);
        PrintedIsAccepted(InLiteral(s.value), done, done + [s], more[1..]);
      } else {
        ParamIsAccepted(done, s, rest);
        PrintedIsAccepted(EndParam, done + [s], done + [s], more[1..]);
      }
    }
  }

  lemma LiteralIsAccepted(done: seq<Segment>, value: string, rest: string)
    requires ValidSegment(Segment(Literal, value))
    ensures Scan(StartSegment, done, value + rest) == Scan(InLiteral(value), done, rest)
  {
    var text := value + rest;
    assert text[0] == value[0] && text[1..] == value[1..] + rest;
    assert LiteralChar(value[0]) && value[0] != '{' && value[0] != '/';
    assert done + [] == done;
    ScanLiteral([value[0]], value[1..], done, rest);
    assert [value[0]] + value[1..] == value;
  }

  lemma FirstOff(v: string, rest: string)
    requires v != ""
    ensures v + rest != "" && (v + rest)[0] == v[0] && (v + rest)[1..] == v[1..] + rest
  {
  }

  lemma ParamIsAccepted(done: seq<Segment>, s: Segment, rest: string)
    requires ValidSegment(s) && s.kind != Literal
    ensures Scan(StartSegment, done, Text(s) + rest) == Scan(EndParam, done + [s], rest)
  {
    var greedy := s.kind == Greedy;
    var v := s.value;
    var text := Text(s) + rest;
    var closing := "}" + rest;
    assert done + [] == done;
    assert text[0] == '{';
    var inside := text[1..];
    assert Scan(StartSegment, done, text) == Scan(StartParam, done, inside);
    assert v[0] != '*' && v[0] != '}';
    if greedy {
      assert inside[0] == '*' && inside[1..] == v + closing;
      assert Scan(StartParam, done, inside) == Scan(StartGreedy, done, v + closing);
    } else {
      assert inside == v + closing;
    }
    FirstOff(v, closing);
    ScanParam(greedy, [v[0]], v[1..], done, closing);
    assert [v[0]] + v[1..] == v;
    assert closing[1..] == rest;
  }

  // ---- Slashes do not matter ------------------------------------------------------------------------

  lemma {:induction false} SqueezeIsIgnored(st: State, segments: seq<Segment>, rest: string)
    ensures Scan(st, segments, Squeeze(st == StartSegment, rest)) == Scan(st, segments, rest)
    decreases |rest|
  {
    if rest != "" {
      var c, tail := rest[0], rest[1..];
      if st == StartSegment && c == '/' {
        assert segments + [] == segments;
        SqueezeIsIgnored(st, segments, tail);
      } else {
        var t := [c] + Squeeze(c == '/', tail);
        assert t[1..] == Squeeze(c == '/', tail);
        match Step(st, c)
        case Fail(_) =>
        case Go(st1, pushed) =>
          assert st1 == StartSegment <==> c == '/';
          SqueezeIsIgnored(st1, segments + pushed, tail);
      }
    }
  }

  /** A final slash ends the last segment just as the end of the text does. */
  lemma {:induction false} TrailingSlashIsIgnored(st: State, segments: seq<Segment>, rest: string)
    requires Scan(st, segments, rest).Ok?
    ensures Scan(st, segments, rest + "/") == Scan(st, segments, rest)
    decreases |rest|
  {
    var t := rest + "/";
    if rest == "" {
      assert t[0] == '/' && t[1..] == "";
      assert segments + [] == segments;
    } else {
      assert t[0] == rest[0] && t[1..] == rest[1..] + "/";
      var Go(st1, pushed) := Step(st, rest[0]);
      TrailingSlashIsIgnored(st1, segments + pushed, rest[1..]);
    }
  }

  /** The parser accepts exactly the texts that collapse to the printed form of valid segments, and
      then returns those segments. */
  lemma ParsesExactlyPrinted(path: string, segments: seq<Segment>)
    ensures Parse(path) == Ok(segments) <==> ValidSegments(segments) && Collapse(path) == Print(segments)
  {
    assert Read(Start, []) + Squeeze(false, path) == Squeeze(false, path);
    if Parse(path) == Ok(segments) {
      AcceptedIsPrinted(Start, [], path);
    }
    if ValidSegments(segments) && Collapse(path) == Print(segments) {
      CollapsedIsAccepted(path, segments);
    }
  }

  lemma CollapsedIsAccepted(path: string, segments: seq<Segment>)
    requires ValidSegments(segments) && Collapse(path) == Print(segments)
    ensures Parse(path) == Ok(segments)
  {
    var squeezed := Squeeze(false, path);
    SqueezeIsIgnored(Start, [], path);
    PrintRoundTrip(segments);
    if squeezed != Collapse(path) {
      assert squeezed == Collapse(path) + "/";
      TrailingSlashIsIgnored(Start, [], Collapse(path));
    }
  }

  /** Parsing the printed form of any valid segments returns them. */
  lemma PrintRoundTrip(segments: seq<Segment>)
    requires ValidSegments(segments)
    ensures Parse(Print(segments)) == Ok(segments)
  {
    assert [] + segments == segments;
    if segments == [] {
      assert "/"[1..] == "";
    } else {
      PrintAllFrom([], segments);
      assert PrintAll([]) + PrintFrom(segments) == PrintFrom(segments);
      PrintedIsAccepted(Start, [], [], segments);
    }
  }
}
