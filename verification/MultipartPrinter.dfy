/** Printing a form as section 5.1.1 of RFC 2046 lays it out, and reading it back. */
module MultipartPrinter {
  import opened Wrappers
  import opened Text
  import opened MultipartHeader
  import opened Multipart

  /** A parameter as a sender may write it: blanks, a key in any letter case, and a quoted or a bare value. */
  datatype Param = Param(pad: string, key: string, quoted: bool, value: string)

  datatype HeaderLine =
    | DispositionLine(key: string, kind: string, params: seq<Param>)
    | FieldLine(key: string, value: string)

  /** A form field to be sent. */
  datatype Field = Field(lines: seq<HeaderLine>, data: string)

  /** `s` as the inside of a quoted parameter. */
  function Escape(s: string): string {
    if s == "" then ""
    else (if s[0] == '"' || s[0] == '\\' then ['\\', s[0]] else [s[0]]) + Escape(s[1..])
  }

  /** A value as it is written, followed by `tail`. */
  function ValueText(p: Param, tail: string): string {
    if p.quoted then "\"" + (Escape(p.value) + ("\"" + tail)) else p.value + tail
  }

  /** `;key=value;key="value"` */
  function ParamsText(params: seq<Param>): string {
    if params == [] then "" else ";" + (params[0].pad + ParamText(params[0], ParamsText(params[1..])))
  }

  function ParamText(p: Param, tail: string): string {
    p.key + ("=" + ValueText(p, tail))
  }

  function LineValue(l: HeaderLine): string {
    match l
    case DispositionLine(_, kind, params) => kind + ParamsText(params)
    case FieldLine(_, value) => value
  }

  function LineText(l: HeaderLine): string {
    l.key + (":" + (" " + LineValue(l)))
  }

  /** The lines of a header block, without its end. */
  function Block(lines: seq<HeaderLine>): string {
    if lines == [] then ""
    else if |lines| == 1 then LineText(lines[0])
    else LineText(lines[0]) + (CRLF + Block(lines[1..]))
  }

  /** Parts, each from after a delimiter to after the next one, and what follows the last. */
  function PrintParts(cfg: Config, fields: seq<Field>, tail: string): string {
    if fields == [] then tail
    else
      CRLF + (Block(fields[0].lines) +
              (HEADER_END + (fields[0].data + (cfg.Delim() + PrintParts(cfg, fields[1..], tail)))))
  }

  /** A preamble is a text of its own before the first delimiter line. */
  function Opening(preamble: Option<string>): string {
    if preamble.Some? then preamble.value + CRLF else ""
  }

  /** A body whose last delimiter is followed by `tail`. */
  function PrintWith(cfg: Config, preamble: Option<string>, fields: seq<Field>, tail: string): string {
    Opening(preamble) + (cfg.FirstDelim() + PrintParts(cfg, fields, tail))
  }

  /** A form: the last delimiter is the closing one, and any epilogue follows. */
  function Print(cfg: Config, preamble: Option<string>, fields: seq<Field>, epilogue: string): string {
    PrintWith(cfg, preamble, fields, "--" + epilogue)
  }

  // ---- What is read back ---------------------------------------------------------------

  /** The value of the last parameter with this key, in any letter case. */
  function LastNamed(params: seq<Param>, key: string): Option<string> {
    if params == [] then None
    else
      var later := LastNamed(params[1..], key);
      if later.Some? then later else if IEquals(params[0].key, key) then Some(params[0].value) else None
  }

  /** The parameters of all Content-Disposition lines. */
  function AllParams(lines: seq<HeaderLine>): seq<Param> {
    if lines == [] then []
    else (if lines[0].DispositionLine? then lines[0].params else []) + AllParams(lines[1..])
  }

  /** The value of the last Content-Type line. */
  function LastContentType(lines: seq<HeaderLine>): Option<string> {
    if lines == [] then None
    else
      var later := LastContentType(lines[1..]);
      if later.Some? then later
      else if lines[0].FieldLine? && IEquals(lines[0].key, "Content-Type") then Some(lines[0].value)
      else None
  }

  function HeaderFields(lines: seq<HeaderLine>): seq<(string, string)> {
    if lines == [] then [] else [(lines[0].key, LineValue(lines[0]))] + HeaderFields(lines[1..])
  }

  function Or<T>(o: Option<T>, otherwise: T): T {
    if o.Some? then o.value else otherwise
  }

  /** The header that the lines stand for. */
  function HeaderOf(lines: seq<HeaderLine>): PartHeader {
    PartHeader(
      Or(LastNamed(AllParams(lines), "name"), ""),
      LastNamed(AllParams(lines), "filename"),
      Or(LastContentType(lines), ""),
      HeaderFields(lines))
  }

  function ParsedAll(fields: seq<Field>): seq<Part> {
    if fields == [] then [] else [Part(HeaderOf(fields[0].lines), fields[0].data)] + ParsedAll(fields[1..])
  }

  predicate NoCR(s: string) { '\r' !in s }

  /** No blanks around it. */
  predicate Tight(s: string) {
    s == "" || (s[0] != ' ' && s[0] != '\t' && s[|s| - 1] != ' ' && s[|s| - 1] != '\t')
  }

  /** What may be written as a parameter: any value when quoted, and bare one that no `;` and no outer
      blanks are part of and that does not look quoted. */
  predicate PrintableParam(p: Param) {
    Blanks(p.pad) && p.key != "" && Tight(p.key) && '=' !in p.key && NoCR(p.key) && NoCR(p.value) &&
    (p.quoted || (';' !in p.value && Tight(p.value) && (p.value != "" ==> p.value[0] != '"')))
  }

  predicate PrintableLine(l: HeaderLine) {
    l.key != "" && Tight(l.key) && ':' !in l.key && NoCR(l.key) &&
    match l
    case DispositionLine(key, kind, params) =>
      IEquals(key, "Content-Disposition") && kind != "" && Tight(kind) && ';' !in kind && NoCR(kind) &&
      forall p <- params :: PrintableParam(p)
    case FieldLine(key, value) => !IEquals(key, "Content-Disposition") && Tight(value) && NoCR(value)
  }

  predicate PrintableLines(lines: seq<HeaderLine>) {
    lines != [] && forall l <- lines :: PrintableLine(l)
  }

  /** What a sender must see to: printable lines that name the part, and data without the delimiter. */
  predicate Printable(cfg: Config, f: Field) {
    PrintableLines(f.lines) && HeaderOf(f.lines).name != "" && Find(f.data, cfg.Delim()).None?
  }

  // ---- Values ------------------------------------------------------------------------------

  /** One character, escaped where it must be. */
  lemma QuotedTakes(c: char, escaped: bool, more: string, acc: string)
    requires escaped || (c != '"' && c != '\\')
    ensures Quoted((if escaped then ['\\', c] else [c]) + more, acc) == Quoted(more, acc + [c])
  {
    if escaped {
      var text := ['\\', c] + more;
      assert text[1..] == [c] + more && ([c] + more)[1..] == more;
    } else {
      assert ([c] + more)[1..] == more;
    }
  }

  lemma EscapeTakes(s: string, rest: string)
    requires s != ""
    ensures Escape(s) + rest == (if s[0] == '"' || s[0] == '\\' then ['\\', s[0]] else [s[0]]) + (Escape(s[1..]) + rest)
  {
  }

  lemma QuoteEnds(tail: string, acc: string)
    ensures Escape("") + ("\"" + tail) == "\"" + tail
    ensures Quoted("\"" + tail, acc) == (acc, "\"" + tail)
  {
  }

  lemma {:induction false} QuotedEscape(s: string, tail: string, acc: string)
    ensures Quoted(Escape(s) + ("\"" + tail), acc) == (acc + s, "\"" + tail)
    decreases |s|
  {
    hide Quoted, Escape;
    var rest := "\"" + tail;
    if s == "" {
      QuoteEnds(tail, acc);
      assert acc + s == acc;
    } else {
      var c, more := s[0], Escape(s[1..]) + rest;
      var escaped := c == '"' || c == '\\';
      QuotedEscape(s[1..], tail, acc + [c]);
      QuotedTakes(c, escaped, more, acc);
      EscapeTakes(s, rest);
      assert (acc + [c]) + s[1..] == acc + s;
    }
  }

  /** The text between a value and the next semicolon: nothing that matters. */
  function Left(p: Param): string {
    if p.quoted then "" else p.value
  }

  /** A text of parameters starts with a semicolon or is empty. */
  lemma CutAtSemicolon(pre: string, params: seq<Param>)
    requires ';' !in pre
    ensures BeforeSemicolon(pre + ParamsText(params)) == pre
    ensures AfterSemicolon(pre + ParamsText(params)) ==
            if params == [] then "" else params[0].pad + ParamText(params[0], ParamsText(params[1..]))
  {
    hide Find, ParamText;
    if params == [] {
      assert pre + ParamsText(params) == pre;
      FindNothing(pre, ";");
    } else {
      FindAfter(pre, ";", params[0].pad + ParamText(params[0], ParamsText(params[1..])));
    }
  }

  /** A value, quoted or bare, is read back, and the next parameter comes after it. */
  lemma ValueIsRead(p: Param, more: seq<Param>)
    requires PrintableParam(p)
    ensures ParamValue(ValueText(p, ParamsText(more))) == (p.value, AfterSemicolon(Left(p) + ParamsText(more)))
  {
    hide Find, ParamsText, Trim, AfterSemicolon, BeforeSemicolon;
    var tail := ParamsText(more);
    if p.quoted {
      var body := Escape(p.value) + ("\"" + tail);
      assert ("\"" + body)[1..] == body && ("\"" + tail)[1..] == tail && "" + tail == tail;
      QuotedEscape(p.value, tail, "");
      assert "" + p.value == p.value;
    } else {
      CutAtSemicolon(p.value, more);
      TrimPads("", p.value, "");
      assert "" + (p.value + "") == p.value;
      BareIsBare(p, more);
    }
  }

  lemma BareIsBare(p: Param, more: seq<Param>)
    requires PrintableParam(p) && !p.quoted
    ensures var text := p.value + ParamsText(more); text != "" ==> text[0] != '"'
  {
  }

  // ---- Parameters --------------------------------------------------------------------------------

  /** What the parameters make of a header. */
  function WithParams(h: PartHeader, params: seq<Param>): PartHeader {
    var filename := LastNamed(params, "filename");
    h.(name := Or(LastNamed(params, "name"), h.name),
       filename := if filename.Some? then filename else h.filename)
  }

  lemma WithFirst(h: PartHeader, params: seq<Param>)
    requires params != []
    ensures WithParams(h, params) == WithParams(SetParam(h, params[0].key, params[0].value), params[1..])
  {
    assert IEquals(params[0].key, "name") ==> !IEquals(params[0].key, "filename");
  }

  /** A parameter's text has no blanks around it. */
  lemma {:induction false} ParamTight(params: seq<Param>)
    requires params != [] && forall p <- params :: PrintableParam(p)
    ensures var text := ParamText(params[0], ParamsText(params[1..])); text != "" && Tight(text)
    decreases |params|
  {
    hide PrintableParam, ParamText;
    assert params[0] in params;
    if |params| > 1 {
      var rest := params[1..];
      assert rest[0] in params && forall p <- rest :: p in params;
      ParamTight(rest);
      var text := ParamText(rest[0], ParamsText(rest[1..]));
      assert ParamsText(rest) == (";" + rest[0].pad) + text;
      LastOf(";" + rest[0].pad, text);
      LastStays(params[0], ParamsText(rest));
      KeyFirst(params[0], ParamsText(rest));
    } else {
      assert ParamsText(params[1..]) == "";
      LastParamTight(params[0]);
    }
  }

  lemma LastOf(a: string, b: string)
    requires b != ""
    ensures (a + b)[|a + b| - 1] == b[|b| - 1]
  {
  }

  lemma LastStays(p: Param, tail: string)
    requires tail != ""
    ensures ParamText(p, tail) != "" && ParamText(p, tail)[|ParamText(p, tail)| - 1] == tail[|tail| - 1]
  {
  }

  lemma KeyFirst(p: Param, tail: string)
    requires PrintableParam(p)
    ensures ParamText(p, tail) != "" && ParamText(p, tail)[0] != ' ' && ParamText(p, tail)[0] != '\t'
  {
    assert ParamText(p, tail)[0] == p.key[0];
  }

  lemma LastParamTight(p: Param)
    requires PrintableParam(p)
    ensures ParamText(p, "") != "" && Tight(ParamText(p, ""))
  {
    hide Escape;
    KeyFirst(p, "");
    var text := ParamText(p, "");
    if p.quoted {
      assert text[|text| - 1] == '"';
    } else {
      assert text == p.key + ("=" + p.value);
      assert text[|text| - 1] == if p.value == "" then '=' else p.value[|p.value| - 1];
    }
  }

  /** One step of the parameter loop. */
  lemma OneParam(params: seq<Param>, h: PartHeader)
    requires params != [] && forall p <- params :: PrintableParam(p)
    ensures var p := params[0];
            Params(p.pad + ParamText(p, ParamsText(params[1..])), h) ==
            Params(AfterSemicolon(Left(p) + ParamsText(params[1..])), SetParam(h, p.key, p.value))
  {
    hide Find, Trim, ParamValue, ValueText, AfterSemicolon, Left;
    var p := params[0];
    assert p in params;
    var value := ValueText(p, ParamsText(params[1..]));
    var text := p.key + ("=" + value);
    ParamTight(params);
    TrimPads(p.pad, text, "");
    assert p.pad + (text + "") == p.pad + text;
    FindAfter(p.key, "=", value);
    TrimPads("", p.key, "");
    assert "" + (p.key + "") == p.key;
    ValueIsRead(p, params[1..]);
  }

  /** The parameters of a Content-Disposition value are read back, the last of a key winning. */
  lemma {:induction false} ParamsAreRead(pre: string, params: seq<Param>, h: PartHeader)
    requires ';' !in pre && forall p <- params :: PrintableParam(p)
    ensures Params(AfterSemicolon(pre + ParamsText(params)), h) == WithParams(h, params)
    decreases |params|
  {
    hide Find, ParamText, PrintableParam, AfterSemicolon, BeforeSemicolon;
    CutAtSemicolon(pre, params);
    if params == [] {
      NoParams(h);
    } else {
      hide Params, ParamsText, WithParams;
      var p := params[0];
      assert p in params && forall q <- params[1..] :: q in params;
      OneParam(params, h);
      LeftHasNone(p);
      ParamsAreRead(Left(p), params[1..], SetParam(h, p.key, p.value));
      WithFirst(h, params);
    }
  }

  lemma NoParams(h: PartHeader)
    ensures Params("", h) == WithParams(h, [])
  {
  }

  lemma LeftHasNone(p: Param)
    requires PrintableParam(p)
    ensures ';' !in Left(p)
  {
  }

  // ---- Header lines ----------------------------------------------------------------------------

  lemma {:induction false} NoCREscape(s: string)
    requires NoCR(s)
    ensures NoCR(Escape(s))
  {
    if s != "" { NoCREscape(s[1..]); }
  }

  lemma {:induction false} NoCRParams(params: seq<Param>)
    requires forall p <- params :: PrintableParam(p)
    ensures NoCR(ParamsText(params))
    decreases |params|
  {
    hide Escape;
    if params != [] {
      var p := params[0];
      assert p in params;
      NoCRParams(params[1..]);
      NoCREscape(p.value);
      NoCRBlanks(p.pad);
    }
  }

  lemma NoCRBlanks(pad: string)
    requires Blanks(pad)
    ensures NoCR(pad)
  {
  }

  lemma NoCRLine(l: HeaderLine)
    requires PrintableLine(l)
    ensures NoCR(LineText(l)) && LineText(l) != ""
  {
    hide ParamsText;
    if l.DispositionLine? { NoCRParams(l.params); }
  }

  lemma ValueTight(l: HeaderLine)
    requires PrintableLine(l)
    ensures Tight(LineValue(l))
  {
    hide ParamText;
    if l.DispositionLine? && l.params != [] {
      var p := l.params[0];
      var text := ParamText(p, ParamsText(l.params[1..]));
      ParamTight(l.params);
      LastOf(l.kind + (";" + p.pad), text);
      assert LineValue(l) == (l.kind + (";" + p.pad)) + text;
    }
  }

  /** A printed line is read back as its key and value. */
  lemma LineParts(l: HeaderLine)
    requires PrintableLine(l)
    ensures var c := Find(LineText(l), ":");
            c.Some? && Trim(LineText(l)[..c.value]) == l.key && Trim(LineText(l)[c.value + 1..]) == LineValue(l)
  {
    hide Find, Trim, LineValue;
    var value := LineValue(l);
    ValueTight(l);
    FindAfter(l.key, ":", " " + value);
    TrimPads("", l.key, "");
    TrimPads(" ", value, "");
    assert "" + (l.key + "") == l.key && value + "" == value;
  }

  /** What a line makes of a header. */
  function WithLine(h: PartHeader, l: HeaderLine): PartHeader {
    var h1 := h.(headers := h.headers + [(l.key, LineValue(l))]);
    match l
    case DispositionLine(_, _, params) => WithParams(h1, params)
    case FieldLine(key, value) => if IEquals(key, "Content-Type") then h1.(contentType := value) else h1
  }

  lemma LineIsAbsorbed(h: PartHeader, l: HeaderLine)
    requires PrintableLine(l)
    ensures Absorb(h, l.key, LineValue(l)) == WithLine(h, l)
  {
    hide ParamsText, WithParams, AfterSemicolon, Params;
    if l.DispositionLine? { ParamsAreRead(l.kind, l.params, h.(headers := h.headers + [(l.key, LineValue(l))])); }
  }

  function WithLines(h: PartHeader, lines: seq<HeaderLine>): PartHeader
    decreases |lines|
  {
    if lines == [] then h else WithLines(WithLine(h, lines[0]), lines[1..])
  }

  /** The first line of a block, and the block after it. */
  lemma BlockSplits(lines: seq<HeaderLine>)
    requires PrintableLines(lines)
    ensures Block(lines) != "" && SplitLine(Block(lines)) == (LineText(lines[0]), Block(lines[1..]))
  {
    hide Find, LineText, PrintableLine;
    assert lines[0] in lines;
    NoCRLine(lines[0]);
    if |lines| == 1 {
      FindNothing(LineText(lines[0]), CRLF);
    } else {
      FindAfter(LineText(lines[0]), CRLF, Block(lines[1..]));
    }
  }

  lemma {:induction false} LinesAreRead(lines: seq<HeaderLine>, h: PartHeader)
    requires forall l <- lines :: PrintableLine(l)
    ensures HeaderLines(Block(lines), h) == Ok(WithLines(h, lines))
    decreases |lines|
  {
    hide Find, Trim, LineText, PrintableLine, SplitLine, Absorb, WithLine;
    if lines != [] {
      assert lines[0] in lines && forall l <- lines[1..] :: l in lines;
      BlockSplits(lines);
      LineParts(lines[0]);
      LineIsAbsorbed(h, lines[0]);
      hide Block;
      LinesAreRead(lines[1..], WithLine(h, lines[0]));
    }
  }

  lemma {:induction false} LastNamedConcat(a: seq<Param>, b: seq<Param>, key: string)
    ensures LastNamed(a + b, key) == if LastNamed(b, key).Some? then LastNamed(b, key) else LastNamed(a, key)
    decreases |a|
  {
    if a == [] {
      assert a + b == b;
    } else {
      hide IEquals;
      LastNamedConcat(a[1..], b, key);
      assert (a + b)[1..] == a[1..] + b;
    }
  }

  /** Line by line, or all at once. */
  lemma {:induction false} LinesTogether(h: PartHeader, lines: seq<HeaderLine>)
    ensures WithLines(h, lines) ==
            WithParams(h, AllParams(lines)).(
              contentType := Or(LastContentType(lines), h.contentType), headers := h.headers + HeaderFields(lines))
    decreases |lines|
  {
    hide IEquals, LineValue;
    if lines == [] {
      assert h.headers + [] == h.headers;
    } else {
      var h1 := WithLine(h, lines[0]);
      LinesTogether(h1, lines[1..]);
      var mine, more := if lines[0].DispositionLine? then lines[0].params else [], AllParams(lines[1..]);
      assert AllParams(lines) == mine + more;
      LastNamedConcat(mine, more, "name");
      LastNamedConcat(mine, more, "filename");
      var one := [(lines[0].key, LineValue(lines[0]))];
      assert (h.headers + one) + HeaderFields(lines[1..]) == h.headers + (one + HeaderFields(lines[1..]));
    }
  }

  /** A printed header block reads back as the name, file name, content type and headers of its lines,
      quoted or bare, in any letter case and order; without a name it is refused. */
  lemma BlockParses(lines: seq<HeaderLine>)
    requires PrintableLines(lines)
    ensures ParseHeaders(Block(lines)) == if HeaderOf(lines).name == "" then Err(UnnamedPart) else Ok(HeaderOf(lines))
  {
    hide Block, AllParams, LastNamed, LastContentType, HeaderFields, WithLines, HeaderLines;
    LinesAreRead(lines, NO_HEADER);
    LinesTogether(NO_HEADER, lines);
    assert [] + HeaderFields(lines) == HeaderFields(lines);
  }

  /** The blank line that ends a printed block is the first one. */
  lemma {:induction false} BlockEnds(lines: seq<HeaderLine>, rest: string)
    requires PrintableLines(lines)
    ensures Find(Block(lines) + (HEADER_END + rest), HEADER_END) == Some(|Block(lines)|)
    decreases |lines|
  {
    hide Find, LineText, PrintableLine, OccursAt;
    var first := LineText(lines[0]);
    assert lines[0] in lines && forall l <- lines[1..] :: l in lines;
    NoCRLine(lines[0]);
    if |lines| == 1 {
      FindAfter(first, HEADER_END, rest);
    } else {
      var block := Block(lines[1..]);
      BlockEnds(lines[1..], rest);
      NextLineFirst(lines[1..]);
      EndIsLater(first, block, HEADER_END + rest);
    }
  }

  /** The end of a block does not begin in a line that another line follows. */
  lemma EndIsLater(first: string, block: string, rest: string)
    requires NoCR(first) && block != "" && block[0] != '\r' && Find(block + rest, HEADER_END) == Some(|block|)
    ensures Find((first + (CRLF + block)) + rest, HEADER_END) == Some(|first + (CRLF + block)|)
  {
    hide Find, OccursAt;
    var lead, more := first + CRLF, block + rest;
    var s := lead + more;
    assert (first + (CRLF + block)) + rest == s;
    forall j: nat | j < |lead| ensures !OccursAt(s, HEADER_END, j) {
      if j == |first| {
        assert s[j + 2] == more[0] == block[0];
        Differs(s, HEADER_END, j, 2);
      } else {
        assert s[j] == lead[j] != '\r';
        Differs(s, HEADER_END, j, 0);
      }
    }
    assert s[|lead|..] == more;
    FindShift(s, HEADER_END, |lead|);
  }

  lemma NextLineFirst(lines: seq<HeaderLine>)
    requires PrintableLines(lines)
    ensures Block(lines) != "" && Block(lines)[0] != '\r'
  {
    hide LineText;
    NoCRLine(lines[0]);
    assert Block(lines)[0] == LineText(lines[0])[0];
  }

  /** The delimiter after printed data is the first one: a boundary without CR cannot overlap itself. */
  lemma DataEnds(cfg: Config, data: string, rest: string)
    requires NoCR(cfg.boundary) && Find(data, cfg.Delim()).None?
    ensures Find(data + (cfg.Delim() + rest), cfg.Delim()) == Some(|data|)
  {
    hide Find, OccursAt;
    var needle := cfg.Delim();
    var s := data + (needle + rest);
    OccursHere(data, needle, rest);
    forall j: nat | j < |data| ensures !OccursAt(s, needle, j) {
      if j + |needle| <= |data| {
        OccursAtPrefix(data, needle + rest, needle, j);
        NoneMeansNowhere(data, needle, j);
      } else {
        var k := |data| - j;
        assert s[|data|] == needle[0];
        Differs(s, needle, j, k);
      }
    }
    FindIs(s, needle, |data|);
  }

  lemma NoneMeansNowhere(hay: string, needle: string, j: nat)
    requires Find(hay, needle).None?
    ensures !OccursAt(hay, needle, j)
  {
  }

  // ---- Round trip ---------------------------------------------------------------------------

  predicate AllPrintable(cfg: Config, fields: seq<Field>) {
    forall f <- fields :: Printable(cfg, f)
  }

  /** The blocks are at least three bytes shorter than the limit. */
  predicate BlocksFit(cfg: Config, fields: seq<Field>) {
    forall f <- fields :: |Block(f.lines)| + 3 <= cfg.maxHeader
  }

  /** Parts in front of what a body means. */
  function Behind(parts: seq<Part>, m: Meaning): Meaning {
    match m
    case Err(e) => Err(e)
    case Ok(t) => Ok(Tail("", parts + t.parts))
  }

  lemma {:induction false} PartsRoundTrip(cfg: Config, fields: seq<Field>, tail: string)
    requires NoCR(cfg.boundary) && AllPrintable(cfg, fields)
    ensures var text := PrintParts(cfg, fields, tail);
            Whole(cfg, AfterDelim, text) == Behind(ParsedAll(fields), Whole(cfg, AfterDelim, tail)) &&
            (HeadersFit(cfg, AfterDelim, text) <==> BlocksFit(cfg, fields) && HeadersFit(cfg, AfterDelim, tail))
    decreases |fields|
  {
    hide Find, Block, Printable, HeaderOf, Whole, HeadersFit;
    if fields == [] {
      NoLead(cfg, tail);
      NothingBefore(Whole(cfg, AfterDelim, tail));
    } else {
      var f, more := fields[0], PrintParts(cfg, fields[1..], tail);
      PartsRoundTrip(cfg, fields[1..], tail);
      OnePart(cfg, f, more);
      PartBehind(HeaderOf(f.lines), f.data, ParsedAll(fields[1..]), Whole(cfg, AfterDelim, tail));
      assert fields == [f] + fields[1..];
      assert BlocksFit(cfg, fields) <==> |Block(f.lines)| + 3 <= cfg.maxHeader && BlocksFit(cfg, fields[1..]);
    }
  }

  /** No data comes right after a delimiter. */
  lemma NoLead(cfg: Config, tail: string)
    ensures var m := Whole(cfg, AfterDelim, tail); m.Ok? ==> m.value.lead == ""
  {
    hide Find, ParseHeaders;
  }

  lemma NothingBefore(m: Meaning)
    requires m.Ok? ==> m.value.lead == ""
    ensures Behind([], m) == m
  {
    if m.Ok? { assert [] + m.value.parts == m.value.parts; }
  }

  lemma PartBehind(h: PartHeader, data: string, parts: seq<Part>, m: Meaning)
    ensures OpenPart(h, AddLead(data, Behind(parts, m))) == Behind([Part(h, data)] + parts, m)
  {
    assert data + "" == data;
    if m.Ok? { assert [Part(h, data)] + (parts + m.value.parts) == ([Part(h, data)] + parts) + m.value.parts; }
  }

  lemma OnePart(cfg: Config, f: Field, more: string)
    requires NoCR(cfg.boundary) && Printable(cfg, f)
    ensures var text := CRLF + (Block(f.lines) + (HEADER_END + (f.data + (cfg.Delim() + more))));
            Whole(cfg, AfterDelim, text) ==
              OpenPart(HeaderOf(f.lines), AddLead(f.data, Whole(cfg, AfterDelim, more))) &&
            HeadersFit(cfg, AfterDelim, text) ==
              (|Block(f.lines)| + 3 <= cfg.maxHeader && HeadersFit(cfg, AfterDelim, more))
  {
    hide Find, Block, HeaderOf, Printable;
    var afterHeaders := f.data + (cfg.Delim() + more);
    var inHeaders := Block(f.lines) + (HEADER_END + afterHeaders);
    var text := CRLF + inHeaders;
    PrintableData(cfg, f);
    DataPart(cfg, f.data, more);
    HeaderPart(cfg, f, afterHeaders);
    assert text[..2] == CRLF && text[2..] == inHeaders;
    assert Whole(cfg, AfterDelim, text) == Whole(cfg, Headers, inHeaders);
    assert HeadersFit(cfg, AfterDelim, text) == HeadersFit(cfg, Headers, inHeaders);
  }

  lemma PrintableData(cfg: Config, f: Field)
    requires Printable(cfg, f)
    ensures Find(f.data, cfg.Delim()).None?
  {
  }

  lemma DataPart(cfg: Config, data: string, more: string)
    requires NoCR(cfg.boundary) && Find(data, cfg.Delim()).None?
    ensures Whole(cfg, Data, data + (cfg.Delim() + more)) == AddLead(data, Whole(cfg, AfterDelim, more))
    ensures HeadersFit(cfg, Data, data + (cfg.Delim() + more)) == HeadersFit(cfg, AfterDelim, more)
  {
    hide *;
    var s := data + (cfg.Delim() + more);
    DataEnds(cfg, data, more);
    OccursHere(data, cfg.Delim(), more);
    DataIsCut(cfg, s, data, more);
  }

  /** Data up to the delimiter, then whatever follows it. */
  lemma DataIsCut(cfg: Config, s: string, data: string, more: string)
    requires Find(s, cfg.Delim()) == Some(|data|)
    requires s[..|data|] == data && s[|data| + |cfg.Delim()|..] == more
    ensures Whole(cfg, Data, s) == AddLead(data, Whole(cfg, AfterDelim, more))
    ensures HeadersFit(cfg, Data, s) == HeadersFit(cfg, AfterDelim, more)
  {
    hide *;
    DataCutMeans(cfg, s, data, more);
    DataCutFits(cfg, s, |data|);
  }

  lemma DataCutFits(cfg: Config, s: string, i: nat)
    requires Find(s, cfg.Delim()) == Some(i)
    ensures HeadersFit(cfg, Data, s) == HeadersFit(cfg, AfterDelim, s[i + |cfg.Delim()|..])
  {
    hide Find, Whole;
    var more := s[i + |cfg.Delim()|..];
    assert HeadersFit(cfg, Data, s) == HeadersFit(cfg, PartEnding, more);
  }

  lemma DataCutMeans(cfg: Config, s: string, data: string, more: string)
    requires Find(s, cfg.Delim()) == Some(|data|)
    requires s[..|data|] == data && s[|data| + |cfg.Delim()|..] == more
    ensures Whole(cfg, Data, s) == AddLead(data, Whole(cfg, AfterDelim, more))
  {
    hide Find, ParseHeaders, HeadersFit, AddLead;
    assert Whole(cfg, PartEnding, more) == Whole(cfg, AfterDelim, more);
  }

  lemma HeaderPart(cfg: Config, f: Field, rest: string)
    requires Printable(cfg, f)
    ensures Whole(cfg, Headers, Block(f.lines) + (HEADER_END + rest)) == OpenPart(HeaderOf(f.lines), Whole(cfg, Data, rest))
    ensures HeadersFit(cfg, Headers, Block(f.lines) + (HEADER_END + rest)) ==
            (|Block(f.lines)| + 3 <= cfg.maxHeader && HeadersFit(cfg, Data, rest))
  {
    hide *;
    PrintableBlock(cfg, f);
    BlockEnds(f.lines, rest);
    BlockParses(f.lines);
    OccursHere(Block(f.lines), HEADER_END, rest);
    HeadersAreCut(cfg, Block(f.lines) + (HEADER_END + rest), Block(f.lines), rest);
  }

  lemma PrintableBlock(cfg: Config, f: Field)
    requires Printable(cfg, f)
    ensures PrintableLines(f.lines) && HeaderOf(f.lines).name != ""
  {
  }

  /** A header block up to its end, then the data. */
  lemma HeadersAreCut(cfg: Config, s: string, block: string, rest: string)
    requires Find(s, HEADER_END) == Some(|block|) && ParseHeaders(block).Ok?
    requires s[..|block|] == block && s[|block| + |HEADER_END|..] == rest
    ensures Whole(cfg, Headers, s) == OpenPart(ParseHeaders(block).value, Whole(cfg, Data, rest))
    ensures HeadersFit(cfg, Headers, s) == (|block| + 3 <= cfg.maxHeader && HeadersFit(cfg, Data, rest))
  {
    hide Find, ParseHeaders;
  }

  /** The delimiter after a preamble that does not hold it is the first one. */
  lemma PreambleEnds(cfg: Config, preamble: Option<string>, rest: string)
    requires NoCR(cfg.boundary) && (preamble.Some? ==> Find(preamble.value, cfg.FirstDelim()).None?)
    ensures Find(Opening(preamble) + (cfg.FirstDelim() + rest), cfg.FirstDelim()) == Some(|Opening(preamble)|)
  {
    hide Find, OccursAt;
    var needle, lead := cfg.FirstDelim(), Opening(preamble);
    var s := lead + (needle + rest);
    OccursHere(lead, needle, rest);
    forall j: nat | j < |lead| ensures !OccursAt(s, needle, j) {
      var text := preamble.value;
      if j + |needle| <= |text| {
        assert s == text + (CRLF + (needle + rest));
        OccursAtPrefix(text, CRLF + (needle + rest), needle, j);
        NoneMeansNowhere(text, needle, j);
      } else if j <= |text| {
        assert s[|text|] == '\r';
        Differs(s, needle, j, |text| - j);
      } else {
        assert s[j] == '\n' && needle[0] == '-';
        Differs(s, needle, j, 0);
      }
    }
    FindIs(s, needle, |lead|);
  }

  /** What a body means that begins with printed parts: these parts, and then what comes after them. */
  lemma PrefixMeans(cfg: Config, preamble: Option<string>, fields: seq<Field>, tail: string)
    requires NoCR(cfg.boundary) && AllPrintable(cfg, fields)
    requires preamble.Some? ==> Find(preamble.value, cfg.FirstDelim()).None?
    ensures var body := PrintWith(cfg, preamble, fields, tail);
            ParseWhole(cfg, body) == Behind(ParsedAll(fields), Whole(cfg, AfterDelim, tail)) &&
            (HeadersFit(cfg, Preamble, body) <==> BlocksFit(cfg, fields) && HeadersFit(cfg, AfterDelim, tail))
  {
    hide Find, PrintParts, AllPrintable, BlocksFit, Opening, Whole, HeadersFit, ParsedAll, Behind;
    var body := PrintWith(cfg, preamble, fields, tail);
    var parts := PrintParts(cfg, fields, tail);
    ParseWholeIsMeaning(cfg, body);
    PartsRoundTrip(cfg, fields, tail);
    PreambleEnds(cfg, preamble, parts);
    OccursHere(Opening(preamble), cfg.FirstDelim(), parts);
    PreambleIsCut(cfg, body, Opening(preamble), parts);
  }

  /** Parsing a printed form returns its fields, whatever epilogue follows and whatever preamble comes
      before that does not hold the delimiter; and the printed form survives every chunking exactly when
      its header blocks fit. */
  lemma RoundTrip(cfg: Config, preamble: Option<string>, fields: seq<Field>, epilogue: string)
    requires NoCR(cfg.boundary) && AllPrintable(cfg, fields)
    requires preamble.Some? ==> Find(preamble.value, cfg.FirstDelim()).None?
    ensures var body := Print(cfg, preamble, fields, epilogue);
            ParseWhole(cfg, body) == Ok(Tail("", ParsedAll(fields))) &&
            (HeadersFit(cfg, Preamble, body) <==> BlocksFit(cfg, fields))
  {
    hide PrintWith, BlocksFit, ParsedAll, Find, ParseWhole, AllPrintable;
    PrefixMeans(cfg, preamble, fields, "--" + epilogue);
    ClosingMeans(cfg, epilogue);
    assert ParsedAll(fields) + [] == ParsedAll(fields);
  }

  lemma ClosingMeans(cfg: Config, epilogue: string)
    ensures Whole(cfg, AfterDelim, "--" + epilogue) == Ok(Tail("", [])) && HeadersFit(cfg, AfterDelim, "--" + epilogue)
  {
    assert ("--" + epilogue)[..2] == "--";
  }

  lemma PreambleIsCut(cfg: Config, s: string, lead: string, rest: string)
    requires Find(s, cfg.FirstDelim()) == Some(|lead|) && s[|lead| + |cfg.FirstDelim()|..] == rest
    ensures Whole(cfg, Preamble, s) == Whole(cfg, AfterDelim, rest)
    ensures HeadersFit(cfg, Preamble, s) == HeadersFit(cfg, AfterDelim, rest)
  {
    hide *;
    PreambleCutMeans(cfg, s, lead, rest);
    PreambleCutFits(cfg, s, |lead|);
  }

  lemma PreambleCutFits(cfg: Config, s: string, i: nat)
    requires Find(s, cfg.FirstDelim()) == Some(i)
    ensures HeadersFit(cfg, Preamble, s) == HeadersFit(cfg, AfterDelim, s[i + |cfg.FirstDelim()|..])
  {
    hide Find, Whole, OccursAt;
  }

  lemma PreambleCutMeans(cfg: Config, s: string, lead: string, rest: string)
    requires Find(s, cfg.FirstDelim()) == Some(|lead|) && s[|lead| + |cfg.FirstDelim()|..] == rest
    ensures Whole(cfg, Preamble, s) == Whole(cfg, AfterDelim, rest)
  {
    hide Find, ParseHeaders, HeadersFit;
  }

  // ---- Failures -------------------------------------------------------------------------------------------

  /** A malformed rest of a body: what follows its last well-formed delimiter. */
  datatype Broken =
    | CutOff(text: string)                                            // less than two bytes
    | NoLineBreak(text: string)                                       // neither a line break nor `--`
    | OpenHeaders(text: string)                                       // a line break, and no blank line after it
    | NoColon(line: string, text: string)                             // a header line without a colon
    | Nameless(lines: seq<HeaderLine>, text: string)                  // a part without a name
    | Unclosed(lines: seq<HeaderLine>, data: string)                  // data without a delimiter behind it

  predicate IsBroken(cfg: Config, b: Broken) {
    match b
    case CutOff(text) => |text| < 2
    case NoLineBreak(text) => |text| >= 2 && text[..2] != "--" && text[..2] != "\r\n"
    case OpenHeaders(text) => Find(text, HEADER_END).None?
    case NoColon(line, _) => line != "" && ':' !in line && NoCR(line)
    case Nameless(lines, _) => PrintableLines(lines) && HeaderOf(lines).name == ""
    case Unclosed(lines, data) => PrintableLines(lines) && HeaderOf(lines).name != "" && Find(data, cfg.Delim()).None?
  }

  function BrokenText(b: Broken): string {
    match b
    case CutOff(text) => text
    case NoLineBreak(text) => text
    case OpenHeaders(text) => "\r\n" + text
    case NoColon(line, text) => "\r\n" + (line + ("\r\n\r\n" + text))
    case Nameless(lines, text) => "\r\n" + (Block(lines) + ("\r\n\r\n" + text))
    case Unclosed(lines, data) => "\r\n" + (Block(lines) + ("\r\n\r\n" + data))
  }

  /** The failure it is reported as. */
  function FailureOf(cfg: Config, b: Broken): Malformed {
    match b
    case CutOff(_) => TruncatedAfterBoundary
    case NoLineBreak(_) => BadBoundaryTail
    case OpenHeaders(text) => if |text| > cfg.maxHeader then HeadersTooLarge else HeadersTruncated
    case NoColon(_, _) => BadHeaderLine
    case Nameless(_, _) => UnnamedPart
    case Unclosed(_, _) => NoClosingBoundary
  }

  lemma BrokenMeans(cfg: Config, b: Broken)
    requires IsBroken(cfg, b)
    ensures Whole(cfg, AfterDelim, BrokenText(b)) == Err(FailureOf(cfg, b))
  {
    hide Find, ParseHeaders, Block, PrintableLines, HeaderOf;
    match b
    case CutOff(_) =>
    case NoLineBreak(_) =>
    case OpenHeaders(text) => AfterBreak(cfg, text);
    case NoColon(line, text) =>
      AfterBreak(cfg, line + (HEADER_END + text));
      FindAfter(line, HEADER_END, text);
      LineWithoutColon(line);
    case Nameless(lines, text) =>
      AfterBreak(cfg, Block(lines) + (HEADER_END + text));
      BlockEnds(lines, text);
      OccursHere(Block(lines), HEADER_END, text);
      BlockParses(lines);
    case Unclosed(lines, data) =>
      AfterBreak(cfg, Block(lines) + (HEADER_END + data));
      BlockEnds(lines, data);
      OccursHere(Block(lines), HEADER_END, data);
      BlockParses(lines);
  }

  lemma AfterBreak(cfg: Config, text: string)
    ensures Whole(cfg, AfterDelim, CRLF + text) == Whole(cfg, Headers, text)
  {
    hide Find, ParseHeaders;
    assert (CRLF + text)[..2] == CRLF && (CRLF + text)[2..] == text;
  }

  lemma LineWithoutColon(line: string)
    requires line != "" && ':' !in line && NoCR(line)
    ensures ParseHeaders(line) == Err(BadHeaderLine)
  {
    hide Find;
    FindNothing(line, CRLF);
    FindNothing(line, ":");
    assert SplitLine(line) == (line, "");
  }

  /** A body that is well-formed up to some delimiter and broken after it fails with the one error that
      belongs to the break; a body without a first delimiter has no parts at all. */
  lemma BreakIsReported(cfg: Config, preamble: Option<string>, fields: seq<Field>, b: Broken)
    requires NoCR(cfg.boundary) && AllPrintable(cfg, fields) && IsBroken(cfg, b)
    requires preamble.Some? ==> Find(preamble.value, cfg.FirstDelim()).None?
    ensures ParseWhole(cfg, PrintWith(cfg, preamble, fields, BrokenText(b))) == Err(FailureOf(cfg, b))
  {
    hide PrintWith, ParsedAll, Find, ParseWhole, AllPrintable, IsBroken, BrokenText, FailureOf, Whole;
    PrefixMeans(cfg, preamble, fields, BrokenText(b));
    BrokenMeans(cfg, b);
  }

  lemma NoDelimiterIsReported(cfg: Config, body: string)
    requires Find(body, "--" + cfg.boundary).None?
    ensures ParseWhole(cfg, body) == Err(NoOpeningBoundary)
  {
    hide Find, ParseWhole;
    ParseWholeIsMeaning(cfg, body);
  }
}
