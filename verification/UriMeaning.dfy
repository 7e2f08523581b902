/** What `match_uri_template` answers: exactly which URIs it takes for a template, and with which captures. */
module UriMeaning {
  import opened Wrappers
  import opened Text
  import opened UriTemplate

  // ---- Character sets and limits, on texts -------------------------------------------------------

  /** The characters that end a value. */
  function Barred(op: Op, explode: bool): string {
    match op
    case Simple => "/?#,"
    case Reserved => ""
    case Fragment => ""
    case Label => "./?#"
    case PathSegment => if explode then "?#" else "/?#"
    case PathParam => ";/?#&"
    case Query => "&#"
    case QueryMore => "&#"
  }

  lemma BarredExactly(op: Op, c: char, explode: bool)
    ensures ValueChar(op, c, explode) <==> c !in Barred(op, explode)
  {
  }

  /** `needle` first occurs at `m`; at the end of the text when it does not occur. */
  ghost predicate FirstAt(y: string, needle: string, m: nat) {
    (forall j: nat | j < m :: !OccursAt(y, needle, j)) &&
    (OccursAt(y, needle, m) || (m == |y| && forall j: nat :: !OccursAt(y, needle, j)))
  }

  /** `c` last occurs at `m`; at the end of the text when it does not occur. */
  predicate LastAt(y: string, c: char, m: nat) {
    if m < |y| then y[m] == c && c !in y[m + 1..] else m == |y| && c !in y
  }

  /** The values of an expression followed by `rest` extend to `m` in the text `y` at most: to the next
      occurrence of the literal that follows, or of the first character of an optional expression (to the
      last dot, before a label). */
  ghost predicate BoundIs(rest: string, y: string, m: nat) {
    if rest == "" then m == |y|
    else if rest[0] != '{' then FirstAt(y, LiteralRun(rest), m)
    else
      match FirstToken(rest)
      case Some((Expr(e), _)) => (
        match e.op
        case Simple => m == |y|
        case Reserved => m == |y|
        case Label => LastAt(y, '.', m)
        case PathSegment => FirstAt(y, "/", m)
        case Fragment => FirstAt(y, "#", m)
        case PathParam => FirstAt(y, ";", m)
        case Query => FirstAt(y, "?", m)
        case QueryMore => FirstAt(y, "&", m))
      case _ => m == |y|
  }

  lemma FoundIsFirst(uri: string, upos: nat, needle: string)
    requires upos <= |uri|
    ensures var i := FindFrom(uri, needle, upos);
            FirstAt(uri[upos..], needle, if i.Some? then i.value - upos else |uri| - upos)
  {
  }

  lemma {:induction false} FoundIsLast(uri: string, c: char, last: nat)
    ensures var i := FindLast(uri, c, last);
            forall k | 0 <= k < |uri| && k <= last && uri[k] == c :: i.Some? && k <= i.value
    decreases last
  {
    if last > 0 { FoundIsLast(uri, c, last - 1); }
  }

  lemma LimitIsBound(uri: string, upos: nat, rest: string)
    requires upos <= |uri|
    ensures BoundIs(rest, uri[upos..], Limit(uri, upos, rest) - upos)
  {
    hide Find, FindFrom, FindLast, ParseExpression, FirstAt, LastAt;
    var y, m := uri[upos..], Limit(uri, upos, rest) - upos;
    if rest == "" {
    } else if rest[0] != '{' {
      FoundIsFirst(uri, upos, LiteralRun(rest));
    } else {
      BeforeExpression(uri, upos, rest);
    }
  }

  /** Where the last dot from `upos` on is found. */
  lemma LabelBound(uri: string, upos: nat)
    requires upos <= |uri|
    ensures var at := FindLast(uri, '.', if |uri| == 0 then 0 else |uri| - 1);
            LastAt(uri[upos..], '.', (if at.Some? && upos <= at.value < |uri| then at.value else |uri|) - upos)
  {
    var last := if |uri| == 0 then 0 else |uri| - 1;
    var at := FindLast(uri, '.', last);
    var y := uri[upos..];
    FoundIsLast(uri, '.', last);
    forall k | 0 <= k < |y| && y[k] == '.' ensures at.Some? && upos + k <= at.value { assert uri[upos + k] == '.'; }
  }

  lemma BeforeExpression(uri: string, upos: nat, rest: string)
    requires upos <= |uri| && rest != "" && rest[0] == '{'
    ensures LiteralRun(rest) == "" && BoundIs(rest, uri[upos..], LimitBefore(uri, upos, rest) - upos)
  {
    hide Find, FindFrom, FindLast, ParseExpression, FirstAt, LastAt;
    assert OccursAt(rest, "{", 0);
    var close := Find(rest, "}");
    if close.Some? {
      assert close.value > 0 by { assert rest[close.value..close.value + 1][0] == '}'; }
      if ParseExpression(rest[1..close.value]).Some? {
        var e := ParseExpression(rest[1..close.value]).value;
        if e.op == Label {
          LabelBound(uri, upos);
        } else if e.op != Simple && e.op != Reserved {
          FoundIsFirst(uri, upos, [OpChar(e.op)]);
        }
      }
    }
  }

  lemma BoundIsUnique(rest: string, y: string, m: nat, k: nat)
    requires BoundIs(rest, y, m) && BoundIs(rest, y, k)
    ensures m == k
  {
    hide Find, ParseExpression;
    if rest != "" && rest[0] != '{' { FirstIsUnique(y, LiteralRun(rest), m, k); }
    else if rest != "" {
      hide FirstAt;
      match FirstToken(rest)
      case Some((Expr(e), _)) =>
        FirstIsUnique(y, "/", m, k);
        FirstIsUnique(y, "#", m, k);
        FirstIsUnique(y, ";", m, k);
        FirstIsUnique(y, "?", m, k);
        FirstIsUnique(y, "&", m, k);
        LastIsUnique(y, '.', m, k);
      case Some((Text(_), _)) =>
      case None =>
    }
  }

  lemma FirstIsUnique(y: string, needle: string, m: nat, k: nat)
    ensures FirstAt(y, needle, m) && FirstAt(y, needle, k) ==> m == k
  {
    hide OccursAt;
  }

  lemma LastIsUnique(y: string, c: char, m: nat, k: nat)
    ensures LastAt(y, c, m) && LastAt(y, c, k) ==> m == k
  {
    if m < |y| && k < |y| && m < k { assert y[m + 1..][k - m - 1] == y[k]; }
    if m < |y| && k < |y| && k < m { assert y[k + 1..][m - k - 1] == y[m]; }
  }

  // ---- When values are read off a text ----------------------------------------------------------------

  /** A value that `v` can capture under `op`: not empty, no longer than its prefix modifier allows, without
      the characters that end it. */
  predicate IsValue(op: Op, v: Var, value: string) {
    value != "" && (v.maxLength == 0 || |value| <= v.maxLength) && forall c <- value :: c !in Barred(op, v.explode)
  }

  /** The value ends where the text `y` has to end it: at the bound, or before a character it cannot hold. */
  predicate Ends(op: Op, v: Var, value: string, y: string, m: int) {
    value <= y && |value| <= m && (|value| == m || (|value| < |y| && y[|value|] in Barred(op, v.explode)))
  }

  /** The values of `{a,b}` or `{+a,b}` are read off `y` as they are: all defined, with commas between, and
      each ends at its comma, the last one at the bound. */
  ghost predicate ListRead(op: Op, vars: seq<Var>, args: Args, y: string, m: int)
    decreases |vars|
  {
    if vars == [] then true
    else
      var v := vars[0];
      && v.name in args
      && var value := args[v.name];
         && IsValue(op, v, value)
         && if |vars| == 1 then Ends(op, v, value, y, m)
            else
              && value + "," <= y && |value| <= m && ',' !in value
              && ListRead(op, vars[1..], args, y[|value| + 1..], m - |value| - 1)
  }

  function Sep(op: Op): string {
    if op == Label then "." else "/"
  }

  /** The values of `{.a,b}` or `{/a,b}` are read off `y` as they are: the defined ones come first, each behind
      its separator, and nothing that looks like one more value follows. */
  ghost predicate OptionalsRead(op: Op, vars: seq<Var>, args: Args, y: string, m: int)
    decreases |vars|
  {
    if vars == [] then true
    else if vars[0].name in args then
      var v, value := vars[0], args[vars[0].name];
      && IsValue(op, v, value) && Sep(op) <= y
      && Ends(op, v, value, y[1..], m - 1)
      && OptionalsRead(op, vars[1..], args, y[1 + |value|..], m - 1 - |value|)
    else
      (forall n <- NamesOf(vars) :: n !in args) && (m <= 0 || !(Sep(op) <= y))
  }

  ghost predicate ExpressionRead(e: Expression, rest: string, args: Args, y: string) {
    exists m: nat :: BoundIs(rest, y, m) &&
                     if e.op == Simple || e.op == Reserved then ListRead(e.op, e.vars, args, y, m)
                     else OptionalsRead(e.op, e.vars, args, y, m)
  }

  /** Every expression of the template is read off the text `y` as it was expanded. */
  ghost predicate Read(tmpl: string, args: Args, y: string)
    decreases |tmpl|
  {
    if tmpl == "" then true
    else
      match FirstToken(tmpl)
      case None => false
      case Some((Text(s), rest)) => s <= y && Read(rest, args, y[|s|..])
      case Some((Expr(e), rest)) =>
        var x := ExpandExpression(e, args);
        Modelled(e.op) && ExpressionRead(e, rest, args, y) && x <= y && Read(rest, args, y[|x|..])
  }

  // ---- Values, taken and read ---------------------------------------------------------------------------

  /** Taking a value stops at its first barred character, or at the limit. */
  lemma {:induction false} TakeIs(uri: string, from: nat, limit: nat, op: Op, explode: bool)
    requires from <= limit <= |uri|
    ensures var end := Take(uri, from, limit, op, explode);
            && from <= end <= limit && (forall c <- uri[from..end] :: c !in Barred(op, explode))
            && (end < limit ==> uri[end] in Barred(op, explode))
    decreases limit - from
  {
    if from < limit {
      BarredExactly(op, uri[from], explode);
      if ValueChar(op, uri[from], explode) {
        hide Barred;
        TakeIs(uri, from + 1, limit, op, explode);
        var end := Take(uri, from, limit, op, explode);
        assert uri[from..end] == [uri[from]] + uri[from + 1..end];
      }
    }
  }

  lemma {:induction false} TakeReaches(uri: string, from: nat, end: nat, limit: nat, op: Op, explode: bool)
    requires from <= end <= limit <= |uri| && forall c <- uri[from..end] :: c !in Barred(op, explode)
    requires end < limit ==> uri[end] in Barred(op, explode)
    ensures Take(uri, from, limit, op, explode) == end
    decreases end - from
  {
    if from < limit { BarredExactly(op, uri[from], explode); }
    hide Barred;
    if from < end {
      assert uri[from] == uri[from..end][0];
      assert uri[from..end] == [uri[from]] + uri[from + 1..end];
      TakeReaches(uri, from + 1, end, limit, op, explode);
    }
  }

  /** A value that ends there is what is taken. */
  lemma TakenIsValue(uri: string, from: nat, limit: nat, op: Op, v: Var, value: string)
    requires from <= limit <= |uri| && value <= uri[from..]
    requires forall c <- value :: c !in Barred(op, v.explode)
    requires Ends(op, v, value, uri[from..], limit - from)
    ensures Take(uri, from, limit, op, v.explode) == from + |value|
  {
    hide Take, Barred;
    var end := from + |value|;
    assert uri[from..end] == uri[from..][..|value|] == value;
    TakeReaches(uri, from, end, limit, op, v.explode);
  }

  lemma ValueIsTaken(uri: string, from: nat, limit: nat, op: Op, v: Var)
    requires from <= limit <= |uri|
    ensures var end := Take(uri, from, limit, op, v.explode);
            from <= end <= limit && var value := uri[from..end];
            (forall c <- value :: c !in Barred(op, v.explode)) && Ends(op, v, value, uri[from..], limit - from)
  {
    hide Take, Barred;
    TakeIs(uri, from, limit, op, v.explode);
  }

  // ---- Lists --------------------------------------------------------------------------------------------------

  /** Where a value that is followed by a comma ends. */
  lemma CommaEnds(op: Op, v: Var, uri: string, upos: nat, limit: nat, value: string)
    requires (op == Simple || op == Reserved) && upos <= |uri| && limit <= |uri| && IsValue(op, v, value)
    requires value + "," <= uri[upos..] && |value| <= limit - upos && ',' !in value
    ensures ValueEnd(op, v, false, uri, upos, limit) == upos + |value| < |uri| && uri[upos + |value|] == ','
  {
    var y := uri[upos..];
    assert y[|value|] == ',' && uri[upos + |value|] == ',' && value <= y;
    if op == Simple {
      hide Take;
      TakenIsValue(uri, upos, limit, op, v, value);
    } else {
      hide Find;
      assert y == value + ("," + y[|value| + 1..]);
      FindAfter(value, ",", y[|value| + 1..]);
    }
  }

  /** One value of a list. */
  lemma ListStep(op: Op, vars: seq<Var>, uri: string, upos: nat, limit: nat, before: Args, value: string)
    requires upos <= |uri| && limit <= |uri| && vars != [] && value != "" && value <= uri[upos..] && Fits(vars[0], |value|)
    requires ValueEnd(op, vars[0], |vars| == 1, uri, upos, limit) == upos + |value|
    requires |vars| > 1 ==> upos + |value| < |uri| && uri[upos + |value|] == ','
    ensures MatchListed(op, vars, uri, upos, limit, before) ==
            if |vars| == 1 then Advance(upos + |value|, before[vars[0].name := value])
            else MatchListed(op, vars[1..], uri, upos + |value| + 1, limit, before[vars[0].name := value])
  {
    hide ValueEnd;
    assert uri[upos..upos + |value|] == uri[upos..][..|value|] == value;
  }

  /** A list that is read off is taken. */
  lemma {:induction false} ListTaken(op: Op, vars: seq<Var>, uri: string, upos: nat, limit: nat, before: Args, args: Args)
    requires (op == Simple || op == Reserved) && upos <= |uri| && limit <= |uri| && vars != [] && Keeps(before, args)
    requires ListRead(op, vars, args, uri[upos..], limit - upos)
    ensures var r := MatchListed(op, vars, uri, upos, limit, before);
            r.Advance? && Keeps(r.args, args) && before.Keys <= r.args.Keys && forall n <- NamesOf(vars) :: n in r.args
    decreases |vars|
  {
    hide ValueEnd, IsValue, MatchListed, Ends, Fits;
    var v, y := vars[0], uri[upos..];
    var value := args[v.name];
    ValueHasLength(op, v, value);
    if |vars| == 1 {
      LastEnds(op, v, uri, upos, limit, value);
      ListStep(op, vars, uri, upos, limit, before, value);
      OneName(v, vars);
    } else {
      CommaEnds(op, v, uri, upos, limit, value);
      CommaBehind(y, value);
      ListStep(op, vars, uri, upos, limit, before, value);
      var end := upos + |value|;
      assert uri[end + 1..] == y[|value| + 1..];
      ListTaken(op, vars[1..], uri, end + 1, limit, before[v.name := value], args);
    }
  }

  lemma CommaBehind(y: string, value: string)
    requires value + "," <= y
    ensures value <= y && |value| < |y| && y[|value|] == ','
  {
    assert value == (value + ",")[..|value|] == y[..|value|];
  }

  lemma OneName(v: Var, vars: seq<Var>)
    requires |vars| == 1 && vars[0] == v
    ensures NamesOf(vars) == [v.name]
  {
  }

  lemma ValueHasLength(op: Op, v: Var, value: string)
    requires IsValue(op, v, value)
    ensures value != "" && Fits(v, |value|)
  {
  }

  /** The last value. */
  lemma LastEnds(op: Op, v: Var, uri: string, upos: nat, limit: nat, value: string)
    requires (op == Simple || op == Reserved) && upos <= |uri| && limit <= |uri| && IsValue(op, v, value)
    requires Ends(op, v, value, uri[upos..], limit - upos)
    ensures value <= uri[upos..] && ValueEnd(op, v, true, uri, upos, limit) == upos + |value|
  {
    hide Take;
    TakenIsValue(uri, upos, limit, op, v, value);
  }

  /** The value a list takes can be captured and ends there. */
  lemma EndIsValue(op: Op, v: Var, isLast: bool, uri: string, upos: nat, limit: nat)
    requires (op == Simple || op == Reserved) && upos <= limit <= |uri|
    requires var end := ValueEnd(op, v, isLast, uri, upos, limit);
             end > upos && Fits(v, end - upos) && (isLast || (end < |uri| && uri[end] == ','))
    ensures var end := ValueEnd(op, v, isLast, uri, upos, limit);
            var value := uri[upos..end];
            IsValue(op, v, value) && end <= limit && value <= uri[upos..] &&
            if isLast then Ends(op, v, value, uri[upos..], limit - upos) else value + "," <= uri[upos..] && ',' !in value
  {
    hide Take;
    var end, y := ValueEnd(op, v, isLast, uri, upos, limit), uri[upos..];
    var value := uri[upos..end];
    if op == Simple || isLast {
      ValueIsTaken(uri, upos, limit, op, v);
    } else {
      FoundIsFirst(uri, upos, ",");
      assert OccursAt(y, ",", end - upos);
      assert forall k | 0 <= k < |value| :: OccursAt(y, ",", k) <==> value[k] == ',';
    }
    assert !isLast ==> y[end - upos] == ',';
  }

  /** The first value of a list that is taken. */
  lemma ListTook(op: Op, vars: seq<Var>, uri: string, upos: nat, limit: nat, before: Args) returns (value: string)
    requires (op == Simple || op == Reserved) && upos <= |uri| && limit <= |uri| && vars != []
    requires MatchListed(op, vars, uri, upos, limit, before).Advance?
    ensures upos <= limit && IsValue(op, vars[0], value) && |value| <= limit - upos
    ensures var before1 := before[vars[0].name := value];
            var r := MatchListed(op, vars, uri, upos, limit, before);
            if |vars| == 1 then r.args == before1 && Ends(op, vars[0], value, uri[upos..], limit - upos)
            else
              && value + "," <= uri[upos..] && ',' !in value
              && r == MatchListed(op, vars[1..], uri, upos + |value| + 1, limit, before1)
  {
    hide ValueEnd, IsValue, Ends;
    if upos > limit { PastTheLimit(op, vars, uri, upos, limit, before); }
    var end := ValueEnd(op, vars[0], |vars| == 1, uri, upos, limit);
    value := uri[upos..end];
    EndIsValue(op, vars[0], |vars| == 1, uri, upos, limit);
  }

  /** A list that is taken is read off. */
  lemma {:induction false} ListReadOff(op: Op, vars: seq<Var>, uri: string, upos: nat, limit: nat, before: Args, args: Args)
    requires (op == Simple || op == Reserved) && upos <= |uri| && limit <= |uri| && vars != []
    requires NewNames(NamesOf(vars), before)
    requires var r := MatchListed(op, vars, uri, upos, limit, before); r.Advance? && Keeps(r.args, args)
    ensures ListRead(op, vars, args, uri[upos..], limit - upos)
    decreases |vars|
  {
    hide IsValue, Ends, NewNames, Keeps, Fits, MatchListed;
    var v := vars[0];
    var value := ListTook(op, vars, uri, upos, limit, before);
    var before1 := before[v.name := value];
    var r := MatchListed(op, vars, uri, upos, limit, before);
    if |vars| == 1 {
      FinallyKept(before1, before1, args, v.name);
    } else {
      var next := upos + |value| + 1;
      CommaBehind(uri[upos..], value);
      DistinctTail(v.name, NamesOf(vars[1..]), before, value);
      ListedSound(op, vars[1..], uri, next, limit, before1);
      ListReadOff(op, vars[1..], uri, next, limit, before1, args);
      FinallyKept(before1, r.args, args, v.name);
      assert uri[next..] == uri[upos..][|value| + 1..];
    }
  }

  lemma FinallyKept(a: Args, b: Args, c: Args, name: string)
    requires (a == b || Keeps(a, b)) && Keeps(b, c) && name in a
    ensures name in c && c[name] == a[name]
  {
  }

  // ---- Optional variables ------------------------------------------------------------------------------------

  /** One optional value. */
  lemma OptionalStep(op: Op, vars: seq<Var>, uri: string, upos: nat, limit: nat, before: Args, value: string)
    requires (op == Label || op == PathSegment) && upos <= |uri| && limit <= |uri| && vars != []
    requires IsValue(op, vars[0], value) && Sep(op) <= uri[upos..] && Ends(op, vars[0], value, uri[upos..][1..], limit - upos - 1)
    ensures upos + 1 + |value| <= limit
    ensures MatchPrefixed(op, vars, uri, upos, limit, before) ==
            MatchPrefixed(op, vars[1..], uri, upos + 1 + |value|, limit, before[vars[0].name := value])
  {
    hide Take, MatchPrefixed;
    var y := uri[upos..];
    assert y[0] == uri[upos] && y[1..] == uri[upos + 1..];
    TakenIsValue(uri, upos + 1, limit, op, vars[0], value);
    OptionalUnfolds(op, vars, uri, upos, limit, before);
    assert uri[upos + 1..upos + 1 + |value|] == uri[upos + 1..][..|value|] == value;
  }

  lemma OptionalUnfolds(op: Op, vars: seq<Var>, uri: string, upos: nat, limit: nat, args: Args)
    requires upos < limit <= |uri| && vars != [] && uri[upos] == OpChar(op)
    ensures var end := Take(uri, upos + 1, limit, op, vars[0].explode);
            MatchPrefixed(op, vars, uri, upos, limit, args) ==
            if end == upos + 1 || !Fits(vars[0], end - upos - 1) then Mismatch
            else MatchPrefixed(op, vars[1..], uri, end, limit, args[vars[0].name := uri[upos + 1..end]])
  {
    hide Take, OpChar, Fits;
  }

  lemma {:induction false} OptionalsTaken(op: Op, vars: seq<Var>, uri: string, upos: nat, limit: nat, before: Args, args: Args)
    requires (op == Label || op == PathSegment) && upos <= |uri| && limit <= |uri| && Keeps(before, args)
    requires OptionalsRead(op, vars, args, uri[upos..], limit - upos)
    ensures var r := MatchPrefixed(op, vars, uri, upos, limit, before);
            r.Advance? && Keeps(r.args, args) && before.Keys <= r.args.Keys && AllCaptured(NamesOf(vars), args, r.args)
    decreases |vars|
  {
    hide IsValue, Ends, Take;
    if vars != [] && vars[0].name in args {
      hide MatchPrefixed;
      var value := args[vars[0].name];
      OptionalStep(op, vars, uri, upos, limit, before, value);
      assert uri[upos..][1 + |value|..] == uri[upos + 1 + |value|..];
      OptionalsTaken(op, vars[1..], uri, upos + 1 + |value|, limit, before[vars[0].name := value], args);
    }
  }

  /** The first optional value that is taken. */
  lemma OptionalTook(op: Op, vars: seq<Var>, uri: string, upos: nat, limit: nat, before: Args) returns (value: string)
    requires (op == Label || op == PathSegment) && upos < limit <= |uri| && vars != [] && uri[upos] == OpChar(op)
    requires MatchPrefixed(op, vars, uri, upos, limit, before).Advance?
    ensures Sep(op) <= uri[upos..] && upos + 1 + |value| <= limit
    ensures IsValue(op, vars[0], value) && Ends(op, vars[0], value, uri[upos..][1..], limit - upos - 1)
    ensures MatchPrefixed(op, vars, uri, upos, limit, before) ==
            MatchPrefixed(op, vars[1..], uri, upos + 1 + |value|, limit, before[vars[0].name := value])
  {
    hide Take, MatchPrefixed, Ends;
    assert uri[upos..][1..] == uri[upos + 1..];
    OptionalUnfolds(op, vars, uri, upos, limit, before);
    ValueIsTaken(uri, upos + 1, limit, op, vars[0]);
    value := uri[upos + 1..Take(uri, upos + 1, limit, op, vars[0].explode)];
  }

  /** Every variable among `names` that is defined in the end has been captured. */
  ghost predicate AllCaptured(names: seq<string>, args: Args, captured: Args) {
    forall n <- names | n in args :: n in captured
  }

  lemma {:induction false} OptionalsReadOff(op: Op, vars: seq<Var>, uri: string, upos: nat, limit: nat, before: Args, args: Args)
    requires (op == Label || op == PathSegment) && upos <= |uri| && limit <= |uri| && NewNames(NamesOf(vars), before)
    requires var r := MatchPrefixed(op, vars, uri, upos, limit, before);
             r.Advance? && Keeps(r.args, args) && AllCaptured(NamesOf(vars), args, r.args)
    ensures OptionalsRead(op, vars, args, uri[upos..], limit - upos)
    decreases |vars|
  {
    hide IsValue, Ends, NewNames, Keeps, MatchPrefixed, AllCaptured, OptionalsRead;
    var r := MatchPrefixed(op, vars, uri, upos, limit, before);
    if vars == [] || upos >= limit || uri[upos] != OpChar(op) {
      NothingTaken(op, vars, uri, upos, limit, before);
      NothingRead(op, vars, args, uri[upos..], limit - upos, before);
    } else {
      var v := vars[0];
      var value := OptionalTook(op, vars, uri, upos, limit, before);
      var before1, next := before[v.name := value], upos + 1 + |value|;
      DistinctTail(v.name, NamesOf(vars[1..]), before, value);
      PrefixedSound(op, vars[1..], uri, next, limit, before1);
      CapturedTail(vars, args, r.args);
      OptionalsReadOff(op, vars[1..], uri, next, limit, before1, args);
      FinallyKept(before1, r.args, args, v.name);
      OneMoreRead(op, vars, args, uri[upos..], limit - upos);
      assert uri[next..] == uri[upos..][1 + |value|..];
    }
  }

  lemma CapturedTail(vars: seq<Var>, args: Args, captured: Args)
    requires vars != [] && AllCaptured(NamesOf(vars), args, captured)
    ensures AllCaptured(NamesOf(vars[1..]), args, captured)
  {
    assert forall n <- NamesOf(vars[1..]) :: n in NamesOf(vars);
  }

  lemma NothingRead(op: Op, vars: seq<Var>, args: Args, y: string, m: int, before: Args)
    requires NewNames(NamesOf(vars), before) && AllCaptured(NamesOf(vars), args, before)
    requires vars == [] || m <= 0 || !(Sep(op) <= y)
    ensures OptionalsRead(op, vars, args, y, m)
  {
    if vars != [] { assert vars[0].name in NamesOf(vars); }
  }

  lemma OneMoreRead(op: Op, vars: seq<Var>, args: Args, y: string, m: int)
    requires vars != [] && vars[0].name in args && Sep(op) <= y
    requires var value := args[vars[0].name];
             IsValue(op, vars[0], value) && Ends(op, vars[0], value, y[1..], m - 1) &&
             OptionalsRead(op, vars[1..], args, y[1 + |value|..], m - 1 - |value|)
    ensures OptionalsRead(op, vars, args, y, m)
  {
  }

  lemma NothingTaken(op: Op, vars: seq<Var>, uri: string, upos: nat, limit: nat, before: Args)
    requires (op == Label || op == PathSegment) && upos <= |uri| && limit <= |uri|
    requires vars == [] || upos >= limit || uri[upos] != OpChar(op)
    ensures MatchPrefixed(op, vars, uri, upos, limit, before) == Advance(upos, before)
    ensures vars == [] || limit - upos <= 0 || !(Sep(op) <= uri[upos..])
  {
  }

  // ---- Whole templates --------------------------------------------------------------------------------------

  /** The template, expanded with these arguments and no others, is the URI, and every expression is read
      off it as it was expanded. */
  ghost predicate Means(tmpl: string, uri: string, args: Args) {
    Expand(tmpl, args) == Some(uri) && (forall k <- args :: k in Names(tmpl)) && Read(tmpl, args, uri)
  }

  lemma ExpressionTaken(e: Expression, rest: string, uri: string, upos: nat, before: Args, args: Args)
    requires Modelled(e.op) && e.vars != [] && upos <= |uri| && Keeps(before, args) && ExpressionRead(e, rest, args, uri[upos..])
    ensures var r := MatchExpression(e, uri, upos, Limit(uri, upos, rest), before);
            r.Advance? && Keeps(r.args, args) && before.Keys <= r.args.Keys && AllCaptured(NamesOf(e.vars), args, r.args)
  {
    hide BoundIs, Limit, MatchListed, MatchPrefixed, ListRead, OptionalsRead, Keeps;
    var y, limit := uri[upos..], Limit(uri, upos, rest);
    var m: nat :| BoundIs(rest, y, m) && if e.op == Simple || e.op == Reserved then ListRead(e.op, e.vars, args, y, m)
                                         else OptionalsRead(e.op, e.vars, args, y, m);
    LimitIsBound(uri, upos, rest);
    BoundIsUnique(rest, y, m, limit - upos);
    if e.op == Simple || e.op == Reserved {
      ListTaken(e.op, e.vars, uri, upos, limit, before, args);
    } else {
      OptionalsTaken(e.op, e.vars, uri, upos, limit, before, args);
    }
  }

  lemma ExpressionReadOff(e: Expression, rest: string, uri: string, upos: nat, before: Args, args: Args)
    requires Modelled(e.op) && e.vars != [] && upos <= |uri| && NewNames(NamesOf(e.vars), before)
    requires var r := MatchExpression(e, uri, upos, Limit(uri, upos, rest), before);
             r.Advance? && Keeps(r.args, args) && AllCaptured(NamesOf(e.vars), args, r.args)
    ensures ExpressionRead(e, rest, args, uri[upos..])
  {
    hide BoundIs, Limit, MatchListed, MatchPrefixed, ListRead, OptionalsRead, Keeps, NewNames;
    var limit := Limit(uri, upos, rest);
    LimitIsBound(uri, upos, rest);
    if e.op == Simple || e.op == Reserved {
      ListReadOff(e.op, e.vars, uri, upos, limit, before, args);
    } else {
      OptionalsReadOff(e.op, e.vars, uri, upos, limit, before, args);
    }
  }

  /** No captures beyond those at hand and the names to come. */
  ghost predicate OnlyNamed(args: Args, before: Args, names: seq<string>) {
    forall k <- args :: k in before || k in names
  }

  lemma NamedLater(args: Args, before: Args, args1: Args, mine: seq<string>, more: seq<string>)
    requires OnlyNamed(args, before, mine + more) && before.Keys <= args1.Keys && AllCaptured(mine, args, args1)
    ensures OnlyNamed(args, args1, more)
  {
  }

  /** An expression that is read off takes its expansion, and leaves the rest as it was. */
  lemma ExpressionAdvances(e: Expression, rest: string, uri: string, upos: nat, before: Args, args: Args)
    requires Modelled(e.op) && e.vars != [] && upos <= |uri| && Keeps(before, args) && ExpressionRead(e, rest, args, uri[upos..])
    requires NewNames(NamesOf(e.vars) + Names(rest), before) && OnlyNamed(args, before, NamesOf(e.vars) + Names(rest))
    ensures var r := MatchExpression(e, uri, upos, Limit(uri, upos, rest), before);
            && r.Advance? && upos <= r.upos <= |uri| && ExpandExpression(e, args) == uri[upos..r.upos]
            && Keeps(r.args, args) && NewNames(Names(rest), r.args) && OnlyNamed(args, r.args, Names(rest))
  {
    hide NewNames, Limit, MatchExpression, ExpandExpression, ExpressionRead, Names, Keeps, OnlyNamed;
    var mine, more := NamesOf(e.vars), Names(rest);
    FirstNames(mine, more, before);
    ExpressionTaken(e, rest, uri, upos, before, args);
    var r := MatchExpression(e, uri, upos, Limit(uri, upos, rest), before);
    ExpressionSound(e, uri, upos, Limit(uri, upos, rest), before);
    NewNamesSplit(mine, more, before, r.args);
    NamedLater(args, before, r.args, mine, more);
  }

  /** A template that starts with a literal. */
  lemma TextUnfolds(tmpl: string, s: string, rest: string, uri: string, upos: nat, before: Args, args: Args)
    requires tmpl != "" && FirstToken(tmpl) == Some((Text(s), rest)) && upos <= |uri|
    ensures Names(tmpl) == Names(rest) && |rest| < |tmpl|
    ensures Expand(tmpl, args) == match Expand(rest, args) { case None => None case Some(tail) => Some(s + tail) }
    ensures Read(tmpl, args, uri[upos..]) <==> s <= uri[upos..] && Read(rest, args, uri[upos + |s|..])
    ensures MatchFrom(tmpl, uri, upos, before) == if s <= uri[upos..] then MatchFrom(rest, uri, upos + |s|, before) else NoMatch
  {
    hide FirstToken, ExpandExpression, ExpressionRead, MatchFrom, Expand, Names;
    TextStep(tmpl, s, rest, uri, upos, before, args);
    if s <= uri[upos..] { assert uri[upos..][|s|..] == uri[upos + |s|..]; }
  }

  /** A template that starts with an expression. */
  lemma ExpressionUnfolds(tmpl: string, e: Expression, rest: string, uri: string, upos: nat, before: Args, args: Args)
    requires tmpl != "" && FirstToken(tmpl) == Some((Expr(e), rest)) && upos <= |uri|
    ensures Names(tmpl) == NamesOf(e.vars) + Names(rest) && |rest| < |tmpl| && e.vars != []
    ensures Expand(tmpl, args) ==
            match Expand(rest, args) { case None => None case Some(tail) => Some(ExpandExpression(e, args) + tail) }
    ensures var x, y := ExpandExpression(e, args), uri[upos..];
            Read(tmpl, args, y) <==>
              Modelled(e.op) && ExpressionRead(e, rest, args, y) && x <= y && Read(rest, args, uri[upos + |x|..])
    ensures MatchFrom(tmpl, uri, upos, before) ==
            if !Modelled(e.op) then NotModelled
            else match MatchExpression(e, uri, upos, Limit(uri, upos, rest), before)
                 case Mismatch => NoMatch
                 case Advance(upos1, args1) => MatchFrom(rest, uri, upos1, args1)
  {
    hide FirstToken, Limit, MatchExpression, ExpandExpression, ExpressionRead, MatchFrom, Expand, Names;
    ExpressionStep(tmpl, e, rest, uri, upos, before, args);
    var x, y := ExpandExpression(e, args), uri[upos..];
    if x <= y { assert y[|x|..] == uri[upos + |x|..]; }
  }

  lemma NothingLeft(uri: string, upos: nat, before: Args, args: Args)
    requires upos <= |uri|
    ensures MatchFrom("", uri, upos, before) == (if upos == |uri| then Match(before) else NoMatch)
    ensures Expand("", args) == Some("") && Names("") == []
    ensures Read("", args, uri[upos..])
  {
  }

  /** What is read off is matched, with these very captures. */
  lemma {:induction false} ReadIsMatched(tmpl: string, uri: string, upos: nat, before: Args, args: Args)
    requires upos <= |uri| && NewNames(Names(tmpl), before) && Keeps(before, args) && OnlyNamed(args, before, Names(tmpl))
    requires Expand(tmpl, args) == Some(uri[upos..]) && Read(tmpl, args, uri[upos..])
    ensures MatchFrom(tmpl, uri, upos, before) == Match(args)
    decreases |tmpl|
  {
    hide FirstToken, NewNames, Limit, MatchExpression, ExpandExpression, ExpressionRead, Keeps, OnlyNamed;
    hide MatchFrom, Expand, Read, Names;
    if tmpl == "" {
      NothingLeft(uri, upos, before, args);
      AllKept(before, args);
    } else {
      ReadStarts(tmpl, args, uri[upos..]);
      match FirstToken(tmpl).value
      case (Text(s), rest) =>
        TextUnfolds(tmpl, s, rest, uri, upos, before, args);
        TailIs(s, Expand(rest, args).value, uri, upos);
        ReadIsMatched(rest, uri, upos + |s|, before, args);
      case (Expr(e), rest) =>
        ExpressionUnfolds(tmpl, e, rest, uri, upos, before, args);
        ExpressionAdvances(e, rest, uri, upos, before, args);
        var r := MatchExpression(e, uri, upos, Limit(uri, upos, rest), before);
        TailIs(uri[upos..r.upos], Expand(rest, args).value, uri, upos);
        ReadIsMatched(rest, uri, r.upos, r.args, args);
    }
  }

  lemma AllKept(before: Args, args: Args)
    requires Keeps(before, args) && OnlyNamed(args, before, [])
    ensures before == args
  {
  }

  lemma TailIs(x: string, tail: string, uri: string, upos: nat)
    requires upos <= |uri| && x + tail == uri[upos..]
    ensures upos + |x| <= |uri| && tail == uri[upos + |x|..]
  {
    assert uri[upos..][|x|..] == tail;
  }

  lemma ReadStarts(tmpl: string, args: Args, y: string)
    requires tmpl != "" && Read(tmpl, args, y)
    ensures FirstToken(tmpl).Some?
  {
    hide FirstToken;
  }

  /** An expression that is matched on the way to these captures is read off. */
  lemma ExpressionWasRead(e: Expression, rest: string, uri: string, upos: nat, before: Args, args: Args)
    requires Modelled(e.op) && e.vars != [] && upos <= |uri| && NewNames(NamesOf(e.vars) + Names(rest), before)
    requires var r := MatchExpression(e, uri, upos, Limit(uri, upos, rest), before);
             r.Advance? && r.upos <= |uri| && MatchFrom(rest, uri, r.upos, r.args) == Match(args)
    ensures var r := MatchExpression(e, uri, upos, Limit(uri, upos, rest), before);
            && ExpressionRead(e, rest, args, uri[upos..]) && NewNames(Names(rest), r.args)
            && upos <= r.upos <= |uri| && ExpandExpression(e, args) == uri[upos..r.upos]
  {
    hide FirstToken, NewNames, Limit, MatchExpression, ExpandExpression, ExpressionRead, MatchFrom, Expand, Names;
    var mine, more := NamesOf(e.vars), Names(rest);
    FirstNames(mine, more, before);
    var r := MatchExpression(e, uri, upos, Limit(uri, upos, rest), before);
    ExpressionSound(e, uri, upos, Limit(uri, upos, rest), before);
    NewNamesSplit(mine, more, before, r.args);
    MatchFromSound(rest, uri, r.upos, r.args);
    LaterNamesDiffer(mine, more, before, r.args, args);
    ExpressionReadOff(e, rest, uri, upos, before, args);
  }

  /** What is matched is read off. */
  lemma {:induction false} MatchedIsRead(tmpl: string, uri: string, upos: nat, before: Args, args: Args)
    requires upos <= |uri| && NewNames(Names(tmpl), before)
    requires MatchFrom(tmpl, uri, upos, before) == Match(args)
    ensures Read(tmpl, args, uri[upos..])
    decreases |tmpl|
  {
    hide FirstToken, NewNames, Limit, MatchExpression, ExpandExpression, ExpressionRead;
    hide MatchFrom, Expand, Read, Names;
    if tmpl == "" {
      NothingLeft(uri, upos, before, args);
    } else {
      MatchStarts(tmpl, uri, upos, before);
      match FirstToken(tmpl).value
      case (Text(s), rest) =>
        TextUnfolds(tmpl, s, rest, uri, upos, before, args);
        MatchedIsRead(rest, uri, upos + |s|, before, args);
      case (Expr(e), rest) =>
        ExpressionUnfolds(tmpl, e, rest, uri, upos, before, args);
        ExpressionWasRead(e, rest, uri, upos, before, args);
        var r := MatchExpression(e, uri, upos, Limit(uri, upos, rest), before);
        MatchedIsRead(rest, uri, r.upos, r.args, args);
        assert uri[upos..r.upos] <= uri[upos..];
    }
  }

  /** A template with distinct variables matches a URI with these captures exactly when it expands to it
      with them and they are read off it again. */
  lemma MatchExactly(tmpl: string, uri: string, args: Args)
    requires Distinct(Names(tmpl))
    ensures MatchFrom(tmpl, uri, 0, map[]) == Match(args) <==> Means(tmpl, uri, args)
  {
    hide MatchFrom, Expand, Read;
    assert uri[0..] == uri;
    if Means(tmpl, uri, args) { ReadIsMatched(tmpl, uri, 0, map[], args); }
    if MatchFrom(tmpl, uri, 0, map[]) == Match(args) {
      MatchIsSound(tmpl, uri);
      MatchedIsRead(tmpl, uri, 0, map[], args);
    }
  }

  /** `match_uri_template`: for a template with distinct variables, exactly the captures that it means. */
  method MatchUriTemplate(tmpl: string, uri: string) returns (r: Matched)
    ensures r == MatchFrom(tmpl, uri, 0, map[])
    ensures Distinct(Names(tmpl)) ==> forall args :: r == Match(args) <==> Means(tmpl, uri, args)
    ensures Distinct(Names(tmpl)) && r.Match? ==> Expand(tmpl, r.args) == Some(uri)
  {
    hide *;
    r := MatchLoop(tmpl, uri);
    MatchIsSound(tmpl, uri);
    if Distinct(Names(tmpl)) {
      forall args ensures r == Match(args) <==> Means(tmpl, uri, args) { MatchExactly(tmpl, uri, args); }
    }
  }

  // ---- Templates with one expression -----------------------------------------------------------------------

  function WithExpression(l: string, body: string, r: string): string {
    l + ("{" + (body + ("}" + r)))
  }

  lemma LiteralFirst(l: string, rest: string)
    requires l != "" && '{' !in l && (rest == "" || rest[0] == '{')
    ensures FirstToken(l + rest) == Some((Text(l), rest)) && LiteralRun(l + rest) == l
  {
    hide Find;
    assert l[0] in l;
    if rest == "" {
      assert l + rest == l;
      FindNothing(l, "{");
    } else {
      assert rest == "{" + rest[1..];
      FindAfter(l, "{", rest[1..]);
    }
  }

  lemma ExpressionFirst(body: string, e: Expression, r: string)
    requires '}' !in body && ParseExpression(body) == Some(e)
    ensures FirstToken("{" + (body + ("}" + r))) == Some((Expr(e), r))
  {
    hide Find, ParseExpression;
    assert "{" + (body + ("}" + r)) == ("{" + body) + ("}" + r);
    FindAfter("{" + body, "}", r);
    assert ("{" + (body + ("}" + r)))[1..1 + |body|] == body;
  }

  /** A literal, read as itself. */
  lemma LiteralRead(l: string, rest: string, args: Args, y: string)
    requires '{' !in l && (rest == "" || rest[0] == '{')
    ensures Names(l + rest) == Names(rest)
    ensures Expand(rest, args) == Some(y) ==> Expand(l + rest, args) == Some(l + y)
    ensures Read(l + rest, args, l + y) <==> Read(rest, args, y)
  {
    if l == "" {
      assert l + rest == rest && l + y == y;
    } else {
      hide FirstToken, Names, Expand, Read;
      LiteralFirst(l, rest);
      TextUnfolds(l + rest, l, rest, l + y, 0, map[], args);
      assert (l + y)[0..] == l + y && (l + y)[0 + |l|..] == y;
    }
  }

  lemma OnlyLiteral(r: string, args: Args)
    requires '{' !in r
    ensures Names(r) == [] && Expand(r, args) == Some(r) && Read(r, args, r)
  {
    NothingLeft("", 0, map[], args);
    LiteralRead(r, "", args, "");
    assert r + "" == r;
  }

  /** Which URIs a template with one expression takes, and with which captures. */
  lemma OneExpression(l: string, body: string, e: Expression, r: string, uri: string, args: Args)
    requires '{' !in l && '{' !in r && '}' !in body && ParseExpression(body) == Some(e) && Modelled(e.op)
    requires Distinct(NamesOf(e.vars))
    ensures var x := ExpandExpression(e, args);
            MatchFrom(WithExpression(l, body, r), uri, 0, map[]) == Match(args) <==>
              uri == l + (x + r) && (forall k <- args :: k in NamesOf(e.vars)) && ExpressionRead(e, r, args, x + r)
  {
    hide FirstToken, Names, Expand, Read, MatchFrom, ParseExpression, ExpandExpression, ExpressionRead, Distinct;
    var x, t := ExpandExpression(e, args), "{" + (body + ("}" + r));
    OnlyLiteral(r, args);
    ExpressionFirst(body, e, r);
    ExpressionUnfolds(t, e, r, x + r, 0, map[], args);
    assert (x + r)[0..] == x + r && (x + r)[0 + |x|..] == r && x <= x + r;
    assert NamesOf(e.vars) + [] == NamesOf(e.vars);
    LiteralRead(l, t, args, x + r);
    MatchExactly(WithExpression(l, body, r), uri, args);
  }

  // ---- One variable ---------------------------------------------------------------------------------------------

  /** What stands in front of a value. */
  function Lead(op: Op): string
    requires Modelled(op)
  {
    match op
    case Label => "."
    case PathSegment => "/"
    case _ => ""
  }

  /** The literal `r` occurs in `x + r` at its end only. */
  predicate OnlyAtEnd(x: string, r: string) {
    r == "" || forall j | 0 <= j < |x| :: !OccursAt(x + r, r, j)
  }

  lemma EndBound(x: string, r: string, m: nat)
    requires '{' !in r && BoundIs(r, x + r, m)
    ensures m <= |x| && (m == |x| <==> OnlyAtEnd(x, r))
  {
    hide OccursAt, Find;
    if r == "" {
      assert x + r == x;
    } else {
      assert r[0] in r;
      LiteralFirst(r, "");
      assert r + "" == r;
      EndIsOccurrence(x, r);
    }
  }

  lemma EndIsOccurrence(x: string, r: string)
    ensures OccursAt(x + r, r, |x|)
  {
    assert (x + r)[|x|..|x| + |r|] == r;
  }

  lemma BoundExists(r: string, y: string)
    ensures exists m: nat :: BoundIs(r, y, m)
  {
    LimitIsBound(y, 0, r);
    assert y[0..] == y;
  }

  /** The defined value of a single variable, read off before the literal `r`. */
  lemma OneDefined(op: Op, v: Var, value: string, r: string)
    requires Modelled(op) && '{' !in r
    ensures var e, args := Expression(op, [v]), map[v.name := value];
            ExpressionRead(e, r, args, ExpandExpression(e, args) + r) <==>
            IsValue(op, v, value) && OnlyAtEnd(Lead(op) + value, r)
    ensures IsValue(op, v, value) ==> ExpandExpression(Expression(op, [v]), map[v.name := value]) == Lead(op) + value
  {
    hide BoundIs, OnlyAtEnd, IsValue;
    var e, args := Expression(op, [v]), map[v.name := value];
    if IsValue(op, v, value) {
      ValueHasLength(op, v, value);
      ExpandedOne(op, v, value);
      var x := Lead(op) + value;
      var y := x + r;
      BoundExists(r, y);
      forall m: nat | BoundIs(r, y, m)
        ensures m <= |x| && (m == |x| <==> OnlyAtEnd(x, r))
        ensures (if op == Simple || op == Reserved then ListRead(op, [v], args, y, m) else OptionalsRead(op, [v], args, y, m)) <==> m == |x|
      {
        EndBound(x, r, m);
        OneRead(op, v, value, r, m);
      }
    }
  }

  lemma ExpandedOne(op: Op, v: Var, value: string)
    requires Modelled(op) && Fits(v, |value|) && value != ""
    ensures ExpandExpression(Expression(op, [v]), map[v.name := value]) == Lead(op) + value
  {
    var args := map[v.name := value];
    assert [v][1..] == [] && Prefixed(",", [], args) == "" && Prefixed(".", [], args) == "" && Prefixed("/", [], args) == "";
    PrefixedStep(",", [v], args, value);
    PrefixedStep(".", [v], args, value);
    PrefixedStep("/", [v], args, value);
    assert ("," + value + "")[1..] == value;
  }

  lemma OneRead(op: Op, v: Var, value: string, r: string, m: nat)
    requires Modelled(op) && IsValue(op, v, value) && m <= |Lead(op) + value|
    ensures var args, y := map[v.name := value], Lead(op) + value + r;
            (if op == Simple || op == Reserved then ListRead(op, [v], args, y, m) else OptionalsRead(op, [v], args, y, m))
            <==> m == |Lead(op) + value|
  {
    hide IsValue;
    var y := Lead(op) + value + r;
    assert [v][1..] == [];
    if op == Simple || op == Reserved {
      assert value <= y;
    } else {
      assert Sep(op) == Lead(op) && y[..1] == Sep(op) && y[1..] == value + r;
    }
  }

  lemma NothingExpanded(op: Op, v: Var)
    requires op == Label || op == PathSegment
    ensures ExpandExpression(Expression(op, [v]), map[]) == ""
  {
    NothingDefined(".", [v], map[]);
    NothingDefined("/", [v], map[]);
  }

  /** An optional variable that is not there. */
  lemma OneAbsent(op: Op, v: Var, r: string)
    requires Modelled(op) && '{' !in r
    ensures var e := Expression(op, [v]);
            ExpressionRead(e, r, map[], ExpandExpression(e, map[]) + r) <==> op == Label || op == PathSegment
    ensures op == Label || op == PathSegment ==> ExpandExpression(Expression(op, [v]), map[]) == ""
  {
    hide BoundIs, ExpandExpression;
    var e := Expression(op, [v]);
    if op == Label || op == PathSegment {
      NothingExpanded(op, v);
      assert ExpandExpression(e, map[]) + r == r && "" + r == r;
      BoundExists(r, r);
      var m: nat :| BoundIs(r, r, m);
      EndBound("", r, m);
      assert r == "" ==> !(Sep(op) <= r);
      assert OptionalsRead(op, [v], map[], r, m);
    }
  }

  /** A template with one variable takes a URI exactly when it is the literals around a value of that variable
      which the literal behind does not cut short, or, for an optional variable, the literals alone. */
  lemma OneVariable(l: string, body: string, op: Op, v: Var, r: string, uri: string, args: Args)
    requires '{' !in l && '{' !in r && '}' !in body && ParseExpression(body) == Some(Expression(op, [v])) && Modelled(op)
    ensures MatchFrom(WithExpression(l, body, r), uri, 0, map[]) == Match(args) <==>
              || (args == map[] && (op == Label || op == PathSegment) && uri == l + r)
              || (v.name in args && args == map[v.name := args[v.name]] && IsValue(op, v, args[v.name])
                  && uri == l + (Lead(op) + args[v.name] + r) && OnlyAtEnd(Lead(op) + args[v.name], r))
  {
    hide ParseExpression, MatchFrom, ExpandExpression, ExpressionRead, IsValue, OnlyAtEnd;
    var e := Expression(op, [v]);
    OneName(v, [v]);
    OneExpression(l, body, e, r, uri, args);
    if v.name in args {
      var one := map[v.name := args[v.name]];
      assert (forall k <- args :: k in [v.name]) <==> args == one;
      OneDefined(op, v, args[v.name], r);
    } else {
      assert (forall k <- args :: k in [v.name]) <==> args == map[];
      OneAbsent(op, v, r);
      assert "" + r == r;
    }
  }
}
