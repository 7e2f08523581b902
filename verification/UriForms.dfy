/** The documented forms of a URI template expression, and what each takes, on texts alone. */
module UriForms {
  import opened Wrappers
  import opened Text
  import opened UriTemplate
  import opened UriMeaning
  import ByteRange

  // ---- How expressions are written ---------------------------------------------------------------------

  /** A variable name that does not start like a label. */
  predicate IsName(n: string) {
    n != "" && n[0] != '.' && ValidName(n)
  }

  /** The characters of names: letters, digits, `_`, `.` and `%`. */
  lemma {:induction false} NameChars(n: string)
    requires ValidName(n)
    ensures forall c <- n :: IsAlnum(c) || c == '_' || c == '.' || c == '%'
    decreases |n|
  {
    if n != "" {
      if n[0] == '%' {
        NameChars(n[3..]);
        assert n == [n[0], n[1], n[2]] + n[3..];
      } else {
        NameChars(n[1..]);
        assert n == [n[0]] + n[1..];
      }
    }
  }

  /** Letters, digits, `_` and inner dots make a name. */
  lemma {:induction false} PlainNames(n: string)
    requires forall c <- n :: c in LOWER || c in UPPER || c in DIGITS || c == '_' || c == '.'
    ensures ValidName(n)
    decreases |n|
  {
    if n != "" {
      LowerLetters(n[0]);
      UpperLetters(n[0]);
      DecimalDigits(n[0]);
      assert n[0] in n && forall c <- n[1..] :: c in n;
      PlainNames(n[1..]);
    }
  }

  lemma OneSpec(spec: string, v: Var)
    requires spec != "" && ',' !in spec && ParseVar(spec) == Some(v)
    ensures ParseVars(spec, []) == Some([v])
  {
    hide ParseVar, Find;
    FindNothing(spec, ",");
    assert [] + [v] == [v];
    NoMoreVars([v]);
  }

  lemma NoMoreVars(vars: seq<Var>)
    ensures ParseVars("", vars) == Some(vars)
  {
  }

  lemma SimpleBody(spec: string, v: Var)
    requires spec != "" && ',' !in spec && ParseVar(spec) == Some(v) && OpOf(spec[0]).None?
    ensures ParseExpression(spec) == Some(Expression(Simple, [v]))
  {
    hide ParseVar, ParseVars;
    OneSpec(spec, v);
  }

  lemma OperatorBody(c: char, op: Op, spec: string, v: Var)
    requires spec != "" && ',' !in spec && ParseVar(spec) == Some(v) && OpOf(c) == Some(op)
    ensures ParseExpression([c] + spec) == Some(Expression(op, [v]))
  {
    hide ParseVar, ParseVars;
    OneSpec(spec, v);
    assert ([c] + spec)[1..] == spec;
  }

  lemma NameSpec(n: string)
    requires IsName(n)
    ensures ParseVar(n) == Some(Var(n, 0, false)) && ',' !in n && '}' !in n && OpOf(n[0]).None?
  {
    NameChars(n);
    FindNothing(n, ":");
    assert n[0] in n && n[|n| - 1] in n;
  }

  lemma ExplodedSpec(n: string)
    requires IsName(n)
    ensures ParseVar(n + "*") == Some(Var(n, 0, true)) && ',' !in n + "*" && '}' !in n + "*" && OpOf((n + "*")[0]).None?
  {
    NameSpec(n);
    assert (n + "*")[..|n|] == n;
  }

  /** The digits of a prefix length denote it. */
  lemma {:induction false} DigitsDenote(d: string)
    requires ByteRange.AllDigits(d)
    ensures Digits(d, 0) == Some(ByteRange.Decimal(d))
    decreases |d|
  {
    if d != "" {
      var n := |d| - 1;
      assert d[n] in d && forall c <- d[..n] :: c in d;
      DigitsDenote(d[..n]);
      DigitsSnoc(d[..n], d[n], 0);
      assert d == d[..n] + [d[n]];
    }
  }

  lemma {:induction false} DigitsSnoc(d: string, c: char, acc: nat)
    requires ByteRange.AllDigits(d) && IsDigit(c)
    ensures Digits(d, acc).Some? && Digits(d + [c], acc) == Some(10 * Digits(d, acc).value + (c - '0') as nat)
    decreases |d|
  {
    if d == "" {
      assert d + [c] == [c] && [c][1..] == "";
    } else {
      assert d[0] in d && forall x <- d[1..] :: x in d;
      DigitsSnoc(d[1..], c, acc * 10 + (d[0] - '0') as nat);
      assert (d + [c])[1..] == d[1..] + [c];
    }
  }

  lemma PrefixSpec(n: string, d: string)
    requires IsName(n) && d != "" && ByteRange.AllDigits(d)
    ensures var spec := n + (":" + d);
            ParseVar(spec) == Some(Var(n, ByteRange.Decimal(d), false)) &&
            ',' !in spec && '}' !in spec && OpOf(spec[0]).None?
  {
    hide Find, ByteRange.Decimal, Digits;
    NameChars(n);
    FindAfter(n, ":", d);
    DigitsDenote(d);
    var spec := n + (":" + d);
    assert d[|d| - 1] in d && spec[|spec| - 1] == d[|d| - 1] && spec[0] == n[0] && n[0] in n;
    assert forall c <- spec :: c in n || c == ':' || c in d;
    assert spec[|n| + 1..] == d && spec[..|n|] == n;
  }

  // ---- What each form takes --------------------------------------------------------------------------------

  /** `{+n}` at the end takes everything that is left, slashes and all. */
  lemma ReservedMeans(l: string, n: string, uri: string, value: string)
    requires '{' !in l && IsName(n)
    ensures MatchFrom(WithExpression(l, "+" + n, ""), uri, 0, map[]) == Match(map[n := value]) <==>
              value != "" && uri == l + value
  {
    hide ParseVar, MatchFrom, WithExpression, ParseExpression;
    NameSpec(n);
    OperatorBody('+', Reserved, n, Var(n, 0, false));
    OneVariable(l, "+" + n, Reserved, Var(n, 0, false), "", uri, map[n := value]);
    assert "" + value + "" == value;
  }

  /** `{n}` takes one or more characters other than `/`, `?`, `#` and `,`, up to the literal behind it. */
  lemma SimpleMeans(l: string, n: string, r: string, uri: string, value: string)
    requires '{' !in l && '{' !in r && IsName(n)
    ensures MatchFrom(WithExpression(l, n, r), uri, 0, map[]) == Match(map[n := value]) <==>
              && value != "" && (forall c <- value :: c !in "/?#,")
              && uri == l + (value + r) && OnlyAtEnd(value, r)
  {
    hide ParseVar, MatchFrom, WithExpression, ParseExpression, OnlyAtEnd;
    NameSpec(n);
    SimpleBody(n, Var(n, 0, false));
    OneVariable(l, n, Simple, Var(n, 0, false), r, uri, map[n := value]);
    assert "" + value == value;
  }

  /** `{n:k}` takes no more than `k` characters. */
  lemma PrefixMeans(l: string, n: string, digits: string, r: string, uri: string, value: string)
    requires '{' !in l && '{' !in r && IsName(n) && digits != "" && ByteRange.AllDigits(digits)
    ensures MatchFrom(WithExpression(l, n + (":" + digits), r), uri, 0, map[]) == Match(map[n := value]) <==>
              && value != "" && (forall c <- value :: c !in "/?#,")
              && (ByteRange.Decimal(digits) == 0 || |value| <= ByteRange.Decimal(digits))
              && uri == l + (value + r) && OnlyAtEnd(value, r)
  {
    hide ParseVar, MatchFrom, WithExpression, ParseExpression, OnlyAtEnd, ByteRange.Decimal;
    var v := Var(n, ByteRange.Decimal(digits), false);
    PrefixSpec(n, digits);
    SimpleBody(n + (":" + digits), v);
    OneVariable(l, n + (":" + digits), Simple, v, r, uri, map[n := value]);
    assert "" + value == value;
  }

  /** `{.n}` takes a dot and a value without dots and slashes, or nothing. */
  lemma LabelMeans(l: string, n: string, r: string, uri: string, value: string)
    requires '{' !in l && '{' !in r && IsName(n)
    ensures MatchFrom(WithExpression(l, "." + n, r), uri, 0, map[]) == Match(map[n := value]) <==>
              && value != "" && (forall c <- value :: c !in "./?#")
              && uri == l + ("." + value + r) && OnlyAtEnd("." + value, r)
    ensures MatchFrom(WithExpression(l, "." + n, r), uri, 0, map[]) == Match(map[]) <==> uri == l + r
  {
    hide ParseVar, MatchFrom, WithExpression, ParseExpression, OnlyAtEnd;
    NameSpec(n);
    OperatorBody('.', Label, n, Var(n, 0, false));
    OneVariable(l, "." + n, Label, Var(n, 0, false), r, uri, map[n := value]);
    OneVariable(l, "." + n, Label, Var(n, 0, false), r, uri, map[]);
    NotNothing(n, value);
  }

  /** `{/n}` takes a slash and one segment, or nothing. */
  lemma PathMeans(l: string, n: string, r: string, uri: string, value: string)
    requires '{' !in l && '{' !in r && IsName(n)
    ensures MatchFrom(WithExpression(l, "/" + n, r), uri, 0, map[]) == Match(map[n := value]) <==>
              && value != "" && (forall c <- value :: c !in "/?#")
              && uri == l + ("/" + value + r) && OnlyAtEnd("/" + value, r)
    ensures MatchFrom(WithExpression(l, "/" + n, r), uri, 0, map[]) == Match(map[]) <==> uri == l + r
  {
    hide ParseVar, MatchFrom, WithExpression, ParseExpression, OnlyAtEnd;
    NameSpec(n);
    OperatorBody('/', PathSegment, n, Var(n, 0, false));
    OneVariable(l, "/" + n, PathSegment, Var(n, 0, false), r, uri, map[n := value]);
    OneVariable(l, "/" + n, PathSegment, Var(n, 0, false), r, uri, map[]);
    NotNothing(n, value);
  }

  /** `{/n*}` takes a slash and any number of segments, or nothing. */
  lemma ExplodedPathMeans(l: string, n: string, r: string, uri: string, value: string)
    requires '{' !in l && '{' !in r && IsName(n)
    ensures MatchFrom(WithExpression(l, "/" + (n + "*"), r), uri, 0, map[]) == Match(map[n := value]) <==>
              && value != "" && (forall c <- value :: c !in "?#")
              && uri == l + ("/" + value + r) && OnlyAtEnd("/" + value, r)
    ensures MatchFrom(WithExpression(l, "/" + (n + "*"), r), uri, 0, map[]) == Match(map[]) <==> uri == l + r
  {
    hide ParseVar, MatchFrom, WithExpression, ParseExpression, OnlyAtEnd;
    var v := Var(n, 0, true);
    ExplodedSpec(n);
    OperatorBody('/', PathSegment, n + "*", v);
    OneVariable(l, "/" + (n + "*"), PathSegment, v, r, uri, map[n := value]);
    OneVariable(l, "/" + (n + "*"), PathSegment, v, r, uri, map[]);
    NotNothing(n, value);
  }

  /** `{.n*}` takes what `{.n}` takes, one label: the dots inside end a value all the same. */
  lemma ExplodedLabelIsLabel(l: string, n: string, r: string, uri: string, value: string)
    requires '{' !in l && '{' !in r && IsName(n)
    ensures MatchFrom(WithExpression(l, "." + (n + "*"), r), uri, 0, map[]) == Match(map[n := value]) <==>
            MatchFrom(WithExpression(l, "." + n, r), uri, 0, map[]) == Match(map[n := value])
    ensures MatchFrom(WithExpression(l, "." + (n + "*"), r), uri, 0, map[]) == Match(map[n := value]) ==> '.' !in value
  {
    LabelMeans(l, n, r, uri, value);
    hide ParseVar, MatchFrom, WithExpression, ParseExpression, OnlyAtEnd;
    var v := Var(n, 0, true);
    ExplodedSpec(n);
    OperatorBody('.', Label, n + "*", v);
    OneVariable(l, "." + (n + "*"), Label, v, r, uri, map[n := value]);
    NotNothing(n, value);
    assert '.' in "./?#";
  }

  /** So no two labels are ever taken by one `{.n*}`. */
  lemma LabelsDoNotSpan(l: string, n: string, a: string, b: string, args: Args)
    requires '{' !in l && IsName(n)
    ensures MatchFrom(WithExpression(l, "." + (n + "*"), ""), l + ("." + (a + ("." + b))), 0, map[]) != Match(args)
  {
    hide ParseVar, MatchFrom, WithExpression, ParseExpression, OnlyAtEnd;
    var v := Var(n, 0, true);
    var labels := a + ("." + b);
    var uri := l + ("." + labels);
    ExplodedSpec(n);
    OperatorBody('.', Label, n + "*", v);
    OneVariable(l, "." + (n + "*"), Label, v, "", uri, args);
    assert l + "" == l;
    if n in args && uri == l + ("." + args[n] + "") {
      assert uri[|l| + 1..] == labels && (l + ("." + args[n] + ""))[|l| + 1..] == args[n];
      DotInside(a, b);
    }
  }

  lemma DotInside(a: string, b: string)
    ensures '.' in a + ("." + b)
  {
    assert (a + ("." + b))[|a|] == '.';
  }

  lemma NotNothing(n: string, value: string)
    ensures map[n := value] != map[] && map[n := value][n] == value
  {
    assert n in map[n := value];
  }
}
