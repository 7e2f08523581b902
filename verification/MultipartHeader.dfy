/** The header block of one multipart part: `parse_headers` and `parse_disposition`. */
module MultipartHeader {
  import opened Wrappers
  import opened Text

  /** What the parser throws, one constructor a message. */
  datatype Malformed =
    | NoOpeningBoundary
    | TruncatedAfterBoundary
    | BadBoundaryTail
    | HeadersTooLarge
    | HeadersTruncated
    | NoClosingBoundary
    | BadHeaderLine
    | UnnamedPart

  datatype PartHeader = PartHeader(
    name: string,
    filename: Option<string>,
    contentType: string,
    headers: seq<(string, string)>)

  const NO_HEADER := PartHeader("", None, "", [])

  /** The text after the first `;`, or nothing. */
  function AfterSemicolon(s: string): (r: string)
    ensures |r| <= |s|
  {
    match Find(s, ";")
    case None => ""
    case Some(i) => s[i + 1..]
  }

  function BeforeSemicolon(s: string): string {
    match Find(s, ";")
    case None => s
    case Some(i) => s[..i]
  }

  /** Reads a quoted value: stops before the closing quote, a backslash quotes the next byte. */
  function Quoted(rest: string, acc: string): (r: (string, string))
    ensures |r.1| <= |rest|
    decreases |rest|
  {
    if rest == "" || rest[0] == '"' then (acc, rest)
    else
      var body := if rest[0] == '\\' && |rest| > 1 then rest[1..] else rest;
      Quoted(body[1..], acc + [body[0]])
  }

  function SetParam(h: PartHeader, key: string, value: string): PartHeader {
    if IEquals(key, "name") then h.(name := value)
    else if IEquals(key, "filename") then h.(filename := Some(value))
    else h
  }

  /** One parameter after its `=`: its value and what follows the next `;`. */
  function ParamValue(rest: string): (r: (string, string))
    ensures |r.1| <= |rest|
  {
    if rest != "" && rest[0] == '"' then
      var (value, tail) := Quoted(rest[1..], "");
      (value, AfterSemicolon(if tail != "" then tail[1..] else tail))
    else
      (Trim(BeforeSemicolon(rest)), AfterSemicolon(rest))
  }

  /** The parameters of a Content-Disposition value, from `rest` on. */
  function Params(rest: string, h: PartHeader): PartHeader
    decreases |rest|
  {
    if rest == "" then h
    else
      var trimmed := Trim(rest);
      match Find(trimmed, "=")
      case None => h
      case Some(eq) =>
        var (value, tail) := ParamValue(trimmed[eq + 1..]);
        Params(tail, SetParam(h, Trim(trimmed[..eq]), value))
  }

  function Disposition(value: string, h: PartHeader): PartHeader {
    Params(AfterSemicolon(value), h)
  }

  function Absorb(h: PartHeader, key: string, value: string): PartHeader {
    var h1 := h.(headers := h.headers + [(key, value)]);
    if IEquals(key, "Content-Disposition") then Disposition(value, h1)
    else if IEquals(key, "Content-Type") then h1.(contentType := value)
    else h1
  }

  /** The first line of a non-empty block, and the block after it. */
  function SplitLine(block: string): (r: (string, string))
    requires block != ""
    ensures |r.1| < |block|
  {
    match Find(block, CRLF)
    case None => (block, "")
    case Some(i) => (block[..i], block[i + 2..])
  }

  function HeaderLines(block: string, h: PartHeader): Result<PartHeader, Malformed>
    decreases |block|
  {
    if block == "" then Ok(h)
    else
      var (line, rest) := SplitLine(block);
      match Find(line, ":")
      case None => Err(BadHeaderLine)
      case Some(c) => HeaderLines(rest, Absorb(h, Trim(line[..c]), Trim(line[c + 1..])))
  }

  /** The header a block stands for; a part must end up with a name. */
  function ParseHeaders(block: string): Result<PartHeader, Malformed> {
    match HeaderLines(block, NO_HEADER)
    case Err(e) => Err(e)
    case Ok(h) => if h.name == "" then Err(UnnamedPart) else Ok(h)
  }

  // ---- The loops of the source ------------------------------------------------

  method QuotedLoop(text: string) returns (param: string, rest: string)
    ensures (param, rest) == Quoted(text, "")
  {
    param, rest := "", text;
    while rest != "" && rest[0] != '"'
      invariant Quoted(rest, param) == Quoted(text, "")
      decreases |rest|
    {
      if rest[0] == '\\' && |rest| > 1 { rest := rest[1..]; }
      param := param + [rest[0]];
      rest := rest[1..];
    }
  }

  method ParseDispositionLoop(value: string, header: PartHeader) returns (h: PartHeader)
    ensures h == Disposition(value, header)
  {
    h := header;
    var rest := AfterSemicolon(value);
    while rest != ""
      invariant Params(rest, h) == Disposition(value, header)
      decreases |rest|
    {
      rest := TrimLoop(rest);
      var eq := Find(rest, "=");
      if eq.None? { break; }
      var key := TrimLoop(rest[..eq.value]);
      rest := rest[eq.value + 1..];
      var param;
      if rest != "" && rest[0] == '"' {
        param, rest := QuotedLoop(rest[1..]);
        if rest != "" { rest := rest[1..]; }
        rest := AfterSemicolon(rest);
      } else {
        param := TrimLoop(BeforeSemicolon(rest));
        rest := AfterSemicolon(rest);
      }
      h := SetParam(h, key, param);
    }
  }

  method ParseHeadersLoop(text: string) returns (r: Result<PartHeader, Malformed>)
    ensures r == ParseHeaders(text)
  {
    var h, block := NO_HEADER, text;
    while block != ""
      invariant HeaderLines(block, h) == HeaderLines(text, NO_HEADER)
      decreases |block|
    {
      var (line, rest) := SplitLine(block);
      block := rest;
      var colon := Find(line, ":");
      if colon.None? { return Err(BadHeaderLine); }
      var key := TrimLoop(line[..colon.value]);
      var value := TrimLoop(line[colon.value + 1..]);
      var grown := h.(headers := h.headers + [(key, value)]);
      if IEquals(key, "Content-Disposition") {
        h := ParseDispositionLoop(value, grown);
      } else if IEquals(key, "Content-Type") {
        h := grown.(contentType := value);
      } else {
        h := grown;
      }
    }
    if h.name == "" { return Err(UnnamedPart); }
    return Ok(h);
  }
}
