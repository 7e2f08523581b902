/** `match_uri_template` for the operators none, `+`, `.` and `/` of RFC 6570, and its soundness. */
module UriTemplate {
  import opened Wrappers
  import opened Text

  type Args = map<string, string>

  /** `maxLength` 0 means no prefix modifier. */
  datatype Var = Var(name: string, maxLength: nat, explode: bool)

  datatype Op = Simple | Reserved | Fragment | Label | PathSegment | PathParam | Query | QueryMore

  datatype Expression = Expression(op: Op, vars: seq<Var>)

  // ---- Expressions ----------------------------------------------------------------------------

  function OpOf(c: char): Option<Op> {
    match c
    case '+' => Some(Reserved)
    case '#' => Some(Fragment)
    case '.' => Some(Label)
    case '/' => Some(PathSegment)
    case ';' => Some(PathParam)
    case '?' => Some(Query)
    case '&' => Some(QueryMore)
    case _ => None
  }

  predicate IsDigit(c: char) { '0' <= c <= '9' }

  predicate IsHex(c: char) { IsDigit(c) || 'a' <= c <= 'f' || 'A' <= c <= 'F' }

  predicate IsAlnum(c: char) { IsDigit(c) || 'a' <= c <= 'z' || 'A' <= c <= 'Z' }

  /** Letters, digits, `_`, `.` and percent-encoded octets. */
  predicate ValidName(s: string)
    decreases |s|
  {
    s == "" ||
    if s[0] == '%' then |s| > 2 && IsHex(s[1]) && IsHex(s[2]) && ValidName(s[3..])
    else (IsAlnum(s[0]) || s[0] == '_' || s[0] == '.') && ValidName(s[1..])
  }

  function Digits(s: string, acc: nat): Option<nat>
    decreases |s|
  {
    if s == "" then Some(acc)
    else if !IsDigit(s[0]) then None
    else Digits(s[1..], acc * 10 + (s[0] - '0') as nat)
  }

  /** One variable specification, with its modifier. */
  function ParseVar(spec: string): Option<Var> {
    if spec != "" && spec[|spec| - 1] == '*' then Named(spec[..|spec| - 1], 0, true)
    else
      match Find(spec, ":")
      case None => Named(spec, 0, false)
      case Some(colon) =>
        match Digits(spec[colon + 1..], 0)
        case None => None
        case Some(n) => Named(spec[..colon], n, false)
  }

  function Named(name: string, maxLength: nat, explode: bool): Option<Var> {
    if name == "" || !ValidName(name) then None else Some(Var(name, maxLength, explode))
  }

  function ParseVars(body: string, acc: seq<Var>): Option<seq<Var>>
    decreases |body|
  {
    if body == "" then Some(acc)
    else
      var comma := Find(body, ",");
      match ParseVar(if comma.None? then body else body[..comma.value])
      case None => None
      case Some(v) => ParseVars(if comma.None? then "" else body[comma.value + 1..], acc + [v])
  }

  /** `parse_uri_expression`. */
  function ParseExpression(body: string): Option<Expression> {
    if body == "" then None
    else
      var op := OpOf(body[0]);
      match ParseVars(if op.Some? then body[1..] else body, [])
      case None => None
      case Some(vars) =>
        if vars == [] then None else Some(Expression(if op.Some? then op.value else Simple, vars))
  }

  method ParseExpressionLoop(text: string) returns (r: Option<Expression>)
    ensures r == ParseExpression(text)
  {
    if text == "" { return None; }
    var op := OpOf(text[0]);
    var body := if op.Some? then text[1..] else text;
    ghost var whole := ParseVars(body, []);
    var vars: seq<Var> := [];
    while body != ""
      invariant ParseVars(body, vars) == whole
      decreases |body|
    {
      var comma := Find(body, ",");
      var v := ParseVar(if comma.None? then body else body[..comma.value]);
      if v.None? { return None; }
      body := if comma.None? then "" else body[comma.value + 1..];
      vars := vars + [v.value];
    }
    if vars == [] { return None; }
    return Some(Expression(if op.Some? then op.value else Simple, vars));
  }

  // ---- Expansion, as the RFC defines it ----------------------------------------------------------

  /** A value under a prefix modifier (section 2.4.1). */
  function Shown(v: Var, value: string): string {
    if v.maxLength > 0 && |value| > v.maxLength then value[..v.maxLength] else value
  }

  /** The defined values, each preceded by the separator (sections 3.2.5 and 3.2.6). */
  function Prefixed(sep: string, vars: seq<Var>, args: Args): string {
    if vars == [] then ""
    else (if vars[0].name in args then sep + Shown(vars[0], args[vars[0].name]) else "") + Prefixed(sep, vars[1..], args)
  }

  /** The defined values with commas between them (sections 3.2.2 and 3.2.3). */
  function Listed(vars: seq<Var>, args: Args): string {
    var all := Prefixed(",", vars, args);
    if all == "" then "" else all[1..]
  }

  function ExpandExpression(e: Expression, args: Args): string {
    match e.op
    case Label => Prefixed(".", e.vars, args)
    case PathSegment => Prefixed("/", e.vars, args)
    case _ => Listed(e.vars, args)
  }

  /** The literal text up to the next expression. */
  function LiteralRun(tmpl: string): (r: string)
    ensures r <= tmpl
    ensures tmpl != "" && tmpl[0] != '{' ==> r != ""
  {
    match Find(tmpl, "{")
    case None => tmpl
    case Some(i) =>
      assert tmpl[i..i + 1][0] == '{';
      tmpl[..i]
  }

  datatype Token = Text(text: string) | Expr(e: Expression)

  /** The first token of a template and the rest; nothing for a malformed one. */
  function FirstToken(tmpl: string): (r: Option<(Token, string)>)
    requires tmpl != ""
    ensures r.Some? ==> |r.value.1| < |tmpl|
  {
    if tmpl[0] != '{' then Some((Text(LiteralRun(tmpl)), tmpl[|LiteralRun(tmpl)|..]))
    else
      match Find(tmpl, "}")
      case None => None
      case Some(close) =>
        assert close > 0 by { assert tmpl[close..close + 1][0] == '}'; }
        match ParseExpression(tmpl[1..close])
        case None => None
        case Some(e) => Some((Expr(e), tmpl[close + 1..]))
  }

  /** Nothing for a malformed template. */
  function Expand(tmpl: string, args: Args): Option<string>
    decreases |tmpl|
  {
    if tmpl == "" then Some("")
    else
      match FirstToken(tmpl)
      case None => None
      case Some((t, rest)) =>
        match Expand(rest, args)
        case None => None
        case Some(tail) => Some((match t case Text(s) => s case Expr(e) => ExpandExpression(e, args)) + tail)
  }

  function NamesOf(vars: seq<Var>): seq<string> {
    if vars == [] then [] else [vars[0].name] + NamesOf(vars[1..])
  }

  /** The variables of a template, in order. */
  function Names(tmpl: string): seq<string>
    decreases |tmpl|
  {
    if tmpl == "" then []
    else
      match FirstToken(tmpl)
      case None => []
      case Some((t, rest)) => (match t case Text(_) => [] case Expr(e) => NamesOf(e.vars)) + Names(rest)
  }

  predicate Distinct(names: seq<string>) {
    forall i, j | 0 <= i < j < |names| :: names[i] != names[j]
  }

  // ---- Matching, on values ---------------------------------------------------------------------------

  predicate ValueChar(op: Op, c: char, explode: bool) {
    match op
    case Reserved => true
    case Fragment => true
    case PathSegment => (explode || c != '/') && c != '?' && c != '#'
    case Label => c != '.' && c != '/' && c != '?' && c != '#'
    case PathParam => c != ';' && c != '/' && c != '?' && c != '#' && c != '&'
    case Query => c != '&' && c != '#'
    case QueryMore => c != '&' && c != '#'
    case Simple => c != '/' && c != '?' && c != '#' && c != ','
  }

  /** Where a value starting at `from` ends, at `limit` at most. */
  function Take(uri: string, from: nat, limit: nat, op: Op, explode: bool): (end: nat)
    requires limit <= |uri|
    ensures from <= end && (end == from || end <= limit)
    decreases limit - from
  {
    if from < limit && ValueChar(op, uri[from], explode) then Take(uri, from + 1, limit, op, explode) else from
  }

  predicate Fits(v: Var, length: nat) {
    v.maxLength == 0 || length <= v.maxLength
  }

  /** `uri.find(needle, from)`. */
  function FindFrom(uri: string, needle: string, from: nat): (r: Option<nat>)
    requires from <= |uri|
    ensures r.Some? ==> from <= r.value && r.value + |needle| <= |uri| && uri[r.value..r.value + |needle|] == needle
  {
    match Find(uri[from..], needle)
    case None => None
    case Some(i) =>
      OccursAtDrop(uri, needle, from, i);
      Some(from + i)
  }

  /** `uri.rfind(c, last)`. */
  function FindLast(uri: string, c: char, last: nat): (r: Option<nat>)
    ensures r.Some? ==> r.value <= last && r.value < |uri| && uri[r.value] == c
  {
    if last < |uri| && uri[last] == c then Some(last)
    else if last == 0 then None
    else FindLast(uri, c, last - 1)
  }

  function OpChar(op: Op): char {
    match op
    case Simple => ' '
    case Reserved => '+'
    case Fragment => '#'
    case Label => '.'
    case PathSegment => '/'
    case PathParam => ';'
    case Query => '?'
    case QueryMore => '&'
  }

  /** How far the values of an expression may extend, given the template text after it. */
  function Limit(uri: string, upos: nat, rest: string): (limit: nat)
    requires upos <= |uri|
    ensures upos <= limit <= |uri|
  {
    var literal := LiteralRun(rest);
    if literal != "" then
      match FindFrom(uri, literal, upos)
      case None => |uri|
      case Some(i) => i
    else if rest == "" then |uri|
    else LimitBefore(uri, upos, rest)
  }

  /** Directly before another expression: a prefix character of that one ends the values. */
  function LimitBefore(uri: string, upos: nat, rest: string): (limit: nat)
    requires upos <= |uri|
    ensures upos <= limit <= |uri|
  {
    match Find(rest, "}")
    case None => |uri|
    case Some(close) =>
      if close == 0 then |uri|
      else
        match ParseExpression(rest[1..close])
        case None => |uri|
        case Some(e) =>
          if e.op == Simple || e.op == Reserved then |uri|
          else
            var at := if e.op == Label then FindLast(uri, '.', if |uri| == 0 then 0 else |uri| - 1)
                      else FindFrom(uri, [OpChar(e.op)], upos);
            if at.Some? && upos <= at.value < |uri| then at.value else |uri|
  }

  datatype Outcome = Mismatch | Advance(upos: nat, args: Args)

  /** Where a value of a `{a,b}` or `{+a,b}` list ends: reserved values may hold commas, so all but the
      last of them end at the first comma, at the limit at most. */
  function ValueEnd(op: Op, v: Var, isLast: bool, uri: string, upos: nat, limit: nat): (end: nat)
    requires upos <= |uri| && limit <= |uri|
    ensures end <= |uri| && (upos <= limit ==> upos <= end)
  {
    if op == Reserved && !isLast then
      match FindFrom(uri, ",", upos)
      case None => limit
      case Some(comma) => if comma > limit then limit else comma
    else Take(uri, upos, limit, op, v.explode)
  }

  /** The variables of `{a,b}` and `{+a,b}`. The end of a reserved value can lie before the cursor, when
      the comma passed last stood at the limit: its length then wraps around, and the rest of the URI
      is captured. */
  function MatchListed(op: Op, vars: seq<Var>, uri: string, upos: nat, limit: nat, args: Args): (r: Outcome)
    requires upos <= |uri| && limit <= |uri|
    ensures r.Advance? ==> r.upos <= |uri|
    decreases |vars|
  {
    if vars == [] then Advance(upos, args)
    else
      var v, isLast := vars[0], |vars| == 1;
      var end := ValueEnd(op, v, isLast, uri, upos, limit);
      if end == upos || !(if end < upos then v.maxLength == 0 else Fits(v, end - upos)) then Mismatch
      else
        var args1 := args[v.name := if end < upos then uri[upos..] else uri[upos..end]];
        if isLast then Advance(end, args1)
        else if end >= |uri| || uri[end] != ',' then Mismatch
        else MatchListed(op, vars[1..], uri, end + 1, limit, args1)
  }

  /** The optional variables of `{.a,b}` and `{/a,b}`. */
  function MatchPrefixed(op: Op, vars: seq<Var>, uri: string, upos: nat, limit: nat, args: Args): (r: Outcome)
    requires upos <= |uri| && limit <= |uri|
    ensures r.Advance? ==> r.upos <= |uri|
    decreases |vars|
  {
    if vars == [] || upos >= limit || uri[upos] != OpChar(op) then Advance(upos, args)
    else
      var v := vars[0];
      var end := Take(uri, upos + 1, limit, op, v.explode);
      if end == upos + 1 || !Fits(v, end - upos - 1) then Mismatch
      else MatchPrefixed(op, vars[1..], uri, end, limit, args[v.name := uri[upos + 1..end]])
  }

  predicate Modelled(op: Op) {
    op == Simple || op == Reserved || op == Label || op == PathSegment
  }

  datatype Matched = NoMatch | Match(args: Args) | NotModelled

  function MatchExpression(e: Expression, uri: string, upos: nat, limit: nat, args: Args): (r: Outcome)
    requires Modelled(e.op) && upos <= |uri| && limit <= |uri|
    ensures r.Advance? ==> r.upos <= |uri|
  {
    if e.op == Simple || e.op == Reserved then MatchListed(e.op, e.vars, uri, upos, limit, args)
    else MatchPrefixed(e.op, e.vars, uri, upos, limit, args)
  }

  /** Matches the rest of a template at `upos`. */
  function MatchFrom(tmpl: string, uri: string, upos: nat, args: Args): Matched
    requires upos <= |uri|
    decreases |tmpl|
  {
    if tmpl == "" then (if upos == |uri| then Match(args) else NoMatch)
    else
      match FirstToken(tmpl)
      case None => NoMatch
      case Some((Text(s), rest)) =>
        if upos + |s| <= |uri| && uri[upos..upos + |s|] == s then MatchFrom(rest, uri, upos + |s|, args) else NoMatch
      case Some((Expr(e), rest)) =>
        if !Modelled(e.op) then NotModelled
        else
          match MatchExpression(e, uri, upos, Limit(uri, upos, rest), args)
          case Mismatch => NoMatch
          case Advance(upos1, args1) => MatchFrom(rest, uri, upos1, args1)
  }

  // ---- Soundness -----------------------------------------------------------------------------------------

  predicate Keeps(a: Args, b: Args) {
    forall k <- a :: k in b && b[k] == a[k]
  }

  /** `b` adds to `a` variables among `names` only. */
  predicate Adds(a: Args, b: Args, names: seq<string>) {
    Keeps(a, b) && forall k <- b :: k in a || k in names
  }

  predicate NewNames(names: seq<string>, args: Args) {
    Distinct(names) && forall n <- names :: n !in args
  }

  /** Past the limit a list can only mismatch. */
  lemma {:induction false} PastTheLimit(op: Op, vars: seq<Var>, uri: string, upos: nat, limit: nat, args: Args)
    requires limit < upos <= |uri| && vars != []
    ensures MatchListed(op, vars, uri, upos, limit, args).Mismatch?
    decreases |vars|
  {
    var v, isLast := vars[0], |vars| == 1;
    var end := ValueEnd(op, v, isLast, uri, upos, limit);
    if !isLast && end < upos && end < |uri| {
      PastTheLimit(op, vars[1..], uri, end + 1, limit, args[v.name := uri[upos..]]);
    }
  }

  lemma DistinctTail(name: string, names: seq<string>, args: Args, value: string)
    requires NewNames([name] + names, args)
    ensures name !in args && name !in names && NewNames(names, args[name := value])
  {
    var all := [name] + names;
    assert all[0] == name;
    forall i, j | 0 <= i < j < |names| ensures names[i] != names[j] { assert all[i + 1] != all[j + 1]; }
    forall n <- names ensures n in all && n != name {
      var i :| 0 <= i < |names| && names[i] == n;
      assert all[i + 1] == n && all[0] != all[i + 1];
    }
    assert name in all;
  }

  /** The first variable, when defined with a value that its modifier leaves alone. */
  lemma PrefixedStep(sep: string, vars: seq<Var>, args: Args, value: string)
    requires vars != [] && vars[0].name in args && args[vars[0].name] == value && Fits(vars[0], |value|)
    ensures Prefixed(sep, vars, args) == sep + value + Prefixed(sep, vars[1..], args)
  {
  }

  /** The expansion of a list that consumed `text`, whatever is captured later. */
  ghost predicate ListExpandsTo(vars: seq<Var>, args: Args, text: string) {
    forall final: Args | Keeps(args, final) :: Prefixed(",", vars, final) == "," + text
  }

  lemma ListGrows(vars: seq<Var>, args: Args, value: string, text: string)
    requires vars != [] && vars[0].name in args && args[vars[0].name] == value && Fits(vars[0], |value|)
    requires |vars| == 1 || ListExpandsTo(vars[1..], args, text)
    ensures ListExpandsTo(vars, args, if |vars| == 1 then value else value + ([','] + text))
  {
    var whole := if |vars| == 1 then value else value + ([','] + text);
    forall final: Args | Keeps(args, final) ensures Prefixed(",", vars, final) == "," + whole {
      assert final[vars[0].name] == value;
      PrefixedStep(",", vars, final, value);
      if |vars| == 1 { assert vars[1..] == [] && Prefixed(",", vars[1..], final) == ""; }
    }
  }

  /** A matched list is its values with commas between them, and all of them are captured. */
  lemma {:induction false} ListedSound(op: Op, vars: seq<Var>, uri: string, upos: nat, limit: nat, args: Args)
    requires upos <= |uri| && limit <= |uri| && vars != [] && NewNames(NamesOf(vars), args)
    requires MatchListed(op, vars, uri, upos, limit, args).Advance?
    ensures var Advance(upos1, args1) := MatchListed(op, vars, uri, upos, limit, args);
            upos <= upos1 && Adds(args, args1, NamesOf(vars)) && ListExpandsTo(vars, args1, uri[upos..upos1])
    decreases |vars|
  {
    hide ListExpandsTo, NewNames, ValueEnd;
    if upos > limit { PastTheLimit(op, vars, uri, upos, limit, args); }
    var v, isLast := vars[0], |vars| == 1;
    var end := ValueEnd(op, v, isLast, uri, upos, limit);
    var value := uri[upos..end];
    var args1 := args[v.name := value];
    DistinctTail(v.name, NamesOf(vars[1..]), args, value);
    var Advance(upos2, args2) := MatchListed(op, vars, uri, upos, limit, args);
    if isLast {
      ListGrows(vars, args2, value, "");
    } else {
      ListedSound(op, vars[1..], uri, end + 1, limit, args1);
      assert v.name in args1;
      ListGrows(vars, args2, value, uri[end + 1..upos2]);
      assert uri[upos..upos2] == value + ([','] + uri[end + 1..upos2]);
    }
  }

  /** The expansion of optional variables that consumed `text`, whatever other names are captured later. */
  ghost predicate OptionalsExpandTo(sep: string, vars: seq<Var>, args: Args, text: string) {
    forall final: Args | Keeps(args, final) && (forall n <- NamesOf(vars) | n in final :: n in args) ::
      Prefixed(sep, vars, final) == text
  }

  lemma OptionalsGrow(sep: string, vars: seq<Var>, args: Args, value: string, text: string)
    requires vars != [] && vars[0].name in args && args[vars[0].name] == value && Fits(vars[0], |value|)
    requires OptionalsExpandTo(sep, vars[1..], args, text)
    ensures OptionalsExpandTo(sep, vars, args, sep + value + text)
  {
    forall final: Args | Keeps(args, final) && (forall n <- NamesOf(vars) | n in final :: n in args)
      ensures Prefixed(sep, vars, final) == sep + value + text
    {
      assert final[vars[0].name] == value;
      assert forall n <- NamesOf(vars[1..]) :: n in NamesOf(vars);
      PrefixedStep(sep, vars, final, value);
    }
  }

  lemma OptionalsAbsent(sep: string, vars: seq<Var>, args: Args)
    requires forall n <- NamesOf(vars) :: n !in args
    ensures OptionalsExpandTo(sep, vars, args, "")
  {
    forall final: Args | Keeps(args, final) && (forall n <- NamesOf(vars) | n in final :: n in args)
      ensures Prefixed(sep, vars, final) == ""
    {
      NothingDefined(sep, vars, final);
    }
  }

  /** Matched optional variables are their values behind the operator; the others are not captured. */
  lemma {:induction false} PrefixedSound(op: Op, vars: seq<Var>, uri: string, upos: nat, limit: nat, args: Args)
    requires upos <= |uri| && limit <= |uri| && NewNames(NamesOf(vars), args)
    requires MatchPrefixed(op, vars, uri, upos, limit, args).Advance?
    ensures var Advance(upos1, args1) := MatchPrefixed(op, vars, uri, upos, limit, args);
            upos <= upos1 && Adds(args, args1, NamesOf(vars)) &&
            OptionalsExpandTo([OpChar(op)], vars, args1, uri[upos..upos1])
    decreases |vars|
  {
    hide OptionalsExpandTo, Take, OpChar;
    var Advance(upos1, args1) := MatchPrefixed(op, vars, uri, upos, limit, args);
    if vars == [] || upos >= limit || uri[upos] != OpChar(op) {
      OptionalsAbsent([OpChar(op)], vars, args);
      assert uri[upos..upos1] == "";
    } else {
      var v := vars[0];
      var end := Take(uri, upos + 1, limit, op, v.explode);
      var value := uri[upos + 1..end];
      DistinctTail(v.name, NamesOf(vars[1..]), args, value);
      PrefixedSound(op, vars[1..], uri, end, limit, args[v.name := value]);
      assert v.name in args[v.name := value];
      OptionalsGrow([OpChar(op)], vars, args1, value, uri[end..upos1]);
      assert uri[upos..upos1] == [OpChar(op)] + value + uri[end..upos1];
    }
  }

  lemma {:induction false} NothingDefined(sep: string, vars: seq<Var>, args: Args)
    requires forall n <- NamesOf(vars) :: n !in args
    ensures Prefixed(sep, vars, args) == ""
  {
    if vars != [] {
      assert vars[0].name in NamesOf(vars);
      assert forall n <- NamesOf(vars[1..]) :: n in NamesOf(vars);
      NothingDefined(sep, vars[1..], args);
    }
  }

  /** One matched expression expands to the part of the URI it consumed, under any later captures. */
  lemma ExpressionSound(e: Expression, uri: string, upos: nat, limit: nat, args: Args)
    requires Modelled(e.op) && e.vars != [] && upos <= |uri| && limit <= |uri| && NewNames(NamesOf(e.vars), args)
    requires MatchExpression(e, uri, upos, limit, args).Advance?
    ensures var Advance(upos1, args1) := MatchExpression(e, uri, upos, limit, args);
            upos <= upos1 <= |uri| && Adds(args, args1, NamesOf(e.vars)) &&
            forall final: Args | Keeps(args1, final) && (forall n <- NamesOf(e.vars) | n in final :: n in args1) ::
              ExpandExpression(e, final) == uri[upos..upos1]
  {
    hide NewNames, Adds, MatchListed, MatchPrefixed, Prefixed, ListExpandsTo, OptionalsExpandTo;
    var Advance(upos1, args1) := MatchExpression(e, uri, upos, limit, args);
    if e.op == Simple || e.op == Reserved {
      ListedSound(e.op, e.vars, uri, upos, limit, args);
      ListText(e, args1, uri[upos..upos1]);
    } else {
      PrefixedSound(e.op, e.vars, uri, upos, limit, args);
      OptionalText(e, args1, uri[upos..upos1]);
    }
  }

  lemma ListText(e: Expression, args: Args, text: string)
    requires (e.op == Simple || e.op == Reserved) && ListExpandsTo(e.vars, args, text)
    ensures forall final: Args | Keeps(args, final) :: ExpandExpression(e, final) == text
  {
    hide Prefixed;
    assert ("," + text)[1..] == text;
  }

  lemma OptionalText(e: Expression, args: Args, text: string)
    requires (e.op == Label || e.op == PathSegment) && OptionalsExpandTo([OpChar(e.op)], e.vars, args, text)
    ensures forall final: Args | Keeps(args, final) && (forall n <- NamesOf(e.vars) | n in final :: n in args) ::
              ExpandExpression(e, final) == text
  {
    hide Prefixed;
  }

  lemma NewNamesSplit(a: seq<string>, b: seq<string>, args: Args, args1: Args)
    requires NewNames(a + b, args) && Adds(args, args1, a)
    ensures NewNames(a, args) && NewNames(b, args1)
  {
    var all := a + b;
    forall i, j | 0 <= i < j < |a| ensures a[i] != a[j] { assert all[i] != all[j]; }
    forall i, j | 0 <= i < j < |b| ensures b[i] != b[j] { assert all[|a| + i] != all[|a| + j]; }
    forall n <- a ensures n !in args { assert n in all; }
    forall n <- b ensures n !in args1 {
      var j :| 0 <= j < |b| && b[j] == n;
      assert all[|a| + j] == n && n in all;
      forall i | 0 <= i < |a| ensures a[i] != n { assert all[i] != all[|a| + j]; }
    }
  }

  /** Whenever the rest of a template matches, expanding it with the final captures gives the rest of
      the URI, and only its own variables have been captured. */
  lemma {:induction false} MatchFromSound(tmpl: string, uri: string, upos: nat, args: Args)
    requires upos <= |uri| && NewNames(Names(tmpl), args)
    requires MatchFrom(tmpl, uri, upos, args).Match?
    ensures var final := MatchFrom(tmpl, uri, upos, args).args;
            Adds(args, final, Names(tmpl)) && Expand(tmpl, final) == Some(uri[upos..])
    decreases |tmpl|
  {
    hide FirstToken, NewNames, Limit, MatchExpression, ExpandExpression;
    if tmpl != "" {
      var final := MatchFrom(tmpl, uri, upos, args).args;
      MatchStarts(tmpl, uri, upos, args);
      hide MatchFrom, Expand, Names;
      match FirstToken(tmpl).value
      case (Text(s), rest) =>
        TextStep(tmpl, s, rest, uri, upos, args, final);
        MatchFromSound(rest, uri, upos + |s|, args);
        assert uri[upos..] == s + uri[upos + |s|..];
      case (Expr(e), rest) =>
        ExpressionStep(tmpl, e, rest, uri, upos, args, final);
        var limit := Limit(uri, upos, rest);
        var Advance(upos1, args1) := MatchExpression(e, uri, upos, limit, args);
        var mine, more := NamesOf(e.vars), Names(rest);
        FirstNames(mine, more, args);
        ExpressionSound(e, uri, upos, limit, args);
        NewNamesSplit(mine, more, args, args1);
        MatchFromSound(rest, uri, upos1, args1);
        LaterNamesDiffer(mine, more, args, args1, final);
        assert ExpandExpression(e, final) == uri[upos..upos1];
        assert uri[upos..] == uri[upos..upos1] + uri[upos1..];
    }
  }

  lemma MatchStarts(tmpl: string, uri: string, upos: nat, before: Args)
    requires tmpl != "" && upos <= |uri| && MatchFrom(tmpl, uri, upos, before).Match?
    ensures FirstToken(tmpl).Some?
  {
    hide FirstToken;
  }

  /** A template that starts with a literal. */
  lemma TextStep(tmpl: string, s: string, rest: string, uri: string, upos: nat, before: Args, args: Args)
    requires tmpl != "" && FirstToken(tmpl) == Some((Text(s), rest)) && upos <= |uri|
    ensures Names(tmpl) == Names(rest) && |rest| < |tmpl|
    ensures Expand(tmpl, args) == match Expand(rest, args) { case None => None case Some(tail) => Some(s + tail) }
    ensures MatchFrom(tmpl, uri, upos, before) == if s <= uri[upos..] then MatchFrom(rest, uri, upos + |s|, before) else NoMatch
  {
    hide FirstToken, Limit, MatchExpression, ExpandExpression;
    assert Names(tmpl) == [] + Names(rest) == Names(rest);
    if upos + |s| <= |uri| { assert uri[upos..upos + |s|] == uri[upos..][..|s|]; }
  }

  /** A template that starts with an expression. */
  lemma ExpressionStep(tmpl: string, e: Expression, rest: string, uri: string, upos: nat, before: Args, args: Args)
    requires tmpl != "" && FirstToken(tmpl) == Some((Expr(e), rest)) && upos <= |uri|
    ensures Names(tmpl) == NamesOf(e.vars) + Names(rest) && |rest| < |tmpl| && e.vars != []
    ensures Expand(tmpl, args) ==
            match Expand(rest, args) { case None => None case Some(tail) => Some(ExpandExpression(e, args) + tail) }
    ensures MatchFrom(tmpl, uri, upos, before) ==
            if !Modelled(e.op) then NotModelled
            else match MatchExpression(e, uri, upos, Limit(uri, upos, rest), before)
                 case Mismatch => NoMatch
                 case Advance(upos1, args1) => MatchFrom(rest, uri, upos1, args1)
  {
    ExpressionHasVars(tmpl);
    hide FirstToken, Limit, MatchExpression, ExpandExpression;
  }

  lemma ExpressionHasVars(tmpl: string)
    requires tmpl != "" && FirstToken(tmpl).Some? && FirstToken(tmpl).value.0.Expr?
    ensures FirstToken(tmpl).value.0.e.vars != []
  {
  }

  lemma FirstNames(a: seq<string>, b: seq<string>, args: Args)
    requires NewNames(a + b, args)
    ensures NewNames(a, args)
  {
    NewNamesSplit(a, b, args, args);
  }

  /** What is captured later is not among the earlier names. */
  lemma LaterNamesDiffer(a: seq<string>, b: seq<string>, args: Args, args1: Args, final: Args)
    requires NewNames(a + b, args) && Adds(args, args1, a) && Adds(args1, final, b)
    ensures Keeps(args1, final) && Adds(args, final, a + b)
    ensures forall n <- a | n in final :: n in args1
  {
    var all := a + b;
    forall i, j | 0 <= i < |a| && 0 <= j < |b| ensures a[i] != b[j] {
      assert all[i] != all[|a| + j];
    }
    forall k <- final ensures k in args || k in all {}
  }

  /** A match is sound: for a template with distinct variables, expanding it with the captures gives back
      the URI exactly. */
  lemma MatchIsSound(tmpl: string, uri: string)
    ensures var r := MatchFrom(tmpl, uri, 0, map[]);
            Distinct(Names(tmpl)) && r.Match? ==>
              Expand(tmpl, r.args) == Some(uri) && forall k <- r.args :: k in Names(tmpl)
  {
    hide MatchFrom, Expand, FirstToken, Limit;
    if Distinct(Names(tmpl)) && MatchFrom(tmpl, uri, 0, map[]).Match? {
      MatchFromSound(tmpl, uri, 0, map[]);
      assert uri[0..] == uri;
    }
  }

  // ---- The loops of the source -----------------------------------------------------------------------------

  method TakeLoop(uri: string, from: nat, limit: nat, op: Op, explode: bool) returns (end: nat)
    requires limit <= |uri|
    ensures end == Take(uri, from, limit, op, explode)
  {
    end := from;
    while end < limit && ValueChar(op, uri[end], explode)
      invariant Take(uri, end, limit, op, explode) == Take(uri, from, limit, op, explode)
      decreases limit - end
    {
      end := end + 1;
    }
  }

  method EndLoop(op: Op, v: Var, isLast: bool, uri: string, upos: nat, limit: nat) returns (end: nat)
    requires upos <= |uri| && limit <= |uri|
    ensures end == ValueEnd(op, v, isLast, uri, upos, limit)
  {
    end := TakeLoop(uri, upos, limit, op, v.explode);
    if op == Reserved && !isLast {
      // Reserved values may contain commas; the separator is the first one.
      var comma := FindFrom(uri, ",", upos);
      end := if comma.None? || comma.value > limit then limit else comma.value;
    }
  }

  method MatchListedLoop(op: Op, vars: seq<Var>, uri: string, start: nat, limit: nat, before: Args) returns (r: Outcome)
    requires start <= |uri| && limit <= |uri|
    ensures r == MatchListed(op, vars, uri, start, limit, before)
  {
    hide ValueEnd;
    var upos: nat, args := start, before;
    for i := 0 to |vars|
      invariant upos <= |uri|
      invariant MatchListed(op, vars[i..], uri, upos, limit, args) == MatchListed(op, vars, uri, start, limit, before)
    {
      assert vars[i..][1..] == vars[i + 1..];
      var v := vars[i];
      var isLast := i + 1 == |vars|;
      var end := EndLoop(op, v, isLast, uri, upos, limit);
      if end == upos { return Mismatch; }
      // An end before the cursor wraps around: only an unlimited variable takes it, with all that is left.
      if end < upos && v.maxLength != 0 { return Mismatch; }
      if end > upos && !Fits(v, end - upos) { return Mismatch; }
      args := args[v.name := if end < upos then uri[upos..] else uri[upos..end]];
      upos := end;
      if !isLast {
        if upos >= |uri| || uri[upos] != ',' { return Mismatch; }
        upos := upos + 1;
      } else {
        return Advance(upos, args);
      }
    }
    return Advance(upos, args);
  }

  method MatchPrefixedLoop(op: Op, vars: seq<Var>, uri: string, start: nat, limit: nat, before: Args) returns (r: Outcome)
    requires start <= |uri| && limit <= |uri|
    ensures r == MatchPrefixed(op, vars, uri, start, limit, before)
  {
    var upos: nat, args := start, before;
    for i := 0 to |vars|
      invariant upos <= |uri|
      invariant MatchPrefixed(op, vars[i..], uri, upos, limit, args) == MatchPrefixed(op, vars, uri, start, limit, before)
    {
      assert vars[i..][1..] == vars[i + 1..];
      var v := vars[i];
      if upos >= limit || uri[upos] != OpChar(op) { break; }       // optional
      var end := TakeLoop(uri, upos + 1, limit, op, v.explode);
      if end == upos + 1 || !Fits(v, end - upos - 1) { return Mismatch; }
      args := args[v.name := uri[upos + 1..end]];
      upos := end;
    }
    return Advance(upos, args);
  }

  /** `match_uri_template`: the two cursors. */
  method MatchLoop(tmpl: string, uri: string) returns (r: Matched)
    ensures r == MatchFrom(tmpl, uri, 0, map[])
  {
    hide FirstToken, Limit, MatchListed, MatchPrefixed;
    var args: Args := map[];
    var upos: nat, tpos: nat := 0, 0;
    assert tmpl[0..] == tmpl;
    while tpos < |tmpl|
      invariant upos <= |uri| && tpos <= |tmpl|
      invariant MatchFrom(tmpl[tpos..], uri, upos, args) == MatchFrom(tmpl, uri, 0, map[])
      decreases |tmpl| - tpos
    {
      var token := FirstToken(tmpl[tpos..]);
      if token.None? { return NoMatch; }
      var (t, rest) := token.value;
      RestIsSuffix(tmpl, tpos);
      match t {
        case Text(literal) =>
          if upos + |literal| > |uri| || uri[upos..upos + |literal|] != literal { return NoMatch; }
          upos := upos + |literal|;
        case Expr(e) =>
          if !Modelled(e.op) { return NotModelled; }
          var limit := Limit(uri, upos, rest);
          var o;
          if e.op == Simple || e.op == Reserved {
            o := MatchListedLoop(e.op, e.vars, uri, upos, limit, args);
          } else {
            o := MatchPrefixedLoop(e.op, e.vars, uri, upos, limit, args);
          }
          if o.Mismatch? { return NoMatch; }
          upos, args := o.upos, o.args;
      }
      tpos := |tmpl| - |rest|;
    }
    assert tmpl[tpos..] == "";
    return if upos == |uri| then Match(args) else NoMatch;
  }

  lemma RestIsSuffix(tmpl: string, tpos: nat)
    requires tpos < |tmpl| && FirstToken(tmpl[tpos..]).Some?
    ensures var rest := FirstToken(tmpl[tpos..]).value.1;
            |rest| < |tmpl| - tpos && tmpl[|tmpl| - |rest|..] == rest
  {
  }
}
