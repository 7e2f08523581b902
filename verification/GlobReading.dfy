// How a glob pattern is read, and what the patterns of the documentation match, in terms of texts alone.

module GlobReading {
  import opened Glob
  import opened GlobSegments

  // ---- Reading and writing tokens ------------------------------------------------------------------

  function Show(t: Token): string {
    match t
    case Segment => "*"
    case Across => "**"
    case Directories => "**/"
    case AnyOne => "?"
    case Exactly(c) => [c]
  }

  function ShowAll(tokens: seq<Token>): string {
    if tokens == [] then "" else Show(tokens[0]) + ShowAll(tokens[1..])
  }

  /** No literal star or question mark, and no wildcard that a longer one would have taken up. */
  predicate MaximalMunch(tokens: seq<Token>) {
    (forall i | 0 <= i < |tokens| :: tokens[i] != Exactly('*') && tokens[i] != Exactly('?')) &&
    (forall i | 0 <= i < |tokens| - 1 ::
       && (tokens[i] == Segment ==> tokens[i + 1] != Segment && tokens[i + 1] != Across && tokens[i + 1] != Directories)
       && (tokens[i] == Across ==> tokens[i + 1] != Exactly('/')))
  }

  lemma MunchCons(t: Token, rest: seq<Token>)
    ensures MaximalMunch([t] + rest) <==>
              && t != Exactly('*') && t != Exactly('?') && MaximalMunch(rest)
              && (rest != [] && t == Segment ==> rest[0] != Segment && rest[0] != Across && rest[0] != Directories)
              && (rest != [] && t == Across ==> rest[0] != Exactly('/'))
  {
    var all := [t] + rest;
    assert all[0] == t && forall i | 0 <= i < |rest| :: all[i + 1] == rest[i];
    if MaximalMunch(all) {
      forall i | 0 <= i < |rest| ensures rest[i] != Exactly('*') && rest[i] != Exactly('?') { assert all[i + 1] == rest[i]; }
      forall i | 0 <= i < |rest| - 1
        ensures rest[i] == Segment ==> rest[i + 1] != Segment && rest[i + 1] != Across && rest[i + 1] != Directories
        ensures rest[i] == Across ==> rest[i + 1] != Exactly('/')
      {
        assert all[i + 1] == rest[i] && all[i + 1 + 1] == rest[i + 1];
      }
      assert rest != [] ==> all[0 + 1] == rest[0];
    }
  }

  /** The first character of a text of tokens tells the first token's kind. */
  lemma ShownFirst(tokens: seq<Token>)
    requires tokens != [] && MaximalMunch(tokens)
    ensures var s := ShowAll(tokens);
            s != "" && (s[0] == '*' <==> tokens[0].Segment? || tokens[0].Across? || tokens[0].Directories?)
            && (s[0] == '?' <==> tokens[0].AnyOne?) && (s[0] == '/' <==> tokens[0] == Exactly('/'))
  {
  }

  lemma {:induction false} WrittenIsRead(tokens: seq<Token>)
    requires MaximalMunch(tokens)
    ensures Tokens(ShowAll(tokens)) == tokens
    decreases |tokens|
  {
    if tokens != [] {
      hide Tokens, MaximalMunch;
      var t, rest := tokens[0], tokens[1..];
      assert tokens == [t] + rest;
      MunchCons(t, rest);
      WrittenIsRead(rest);
      if rest != [] { ShownFirst(rest); }
      FirstIsShown(t, ShowAll(rest));
      TokensStep(ShowAll(tokens), t, ShowAll(rest));
    }
  }

  /** A shown token in front of a text is read as itself, unless the text would lengthen it. */
  lemma FirstIsShown(t: Token, rest: string)
    requires t != Exactly('*') && t != Exactly('?')
    requires t == Segment && rest != "" ==> rest[0] != '*'
    requires t == Across && rest != "" ==> rest[0] != '/'
    ensures FirstToken(Show(t) + rest) == (t, |Show(t)|) && (Show(t) + rest)[|Show(t)|..] == rest
  {
  }

  lemma {:induction false} ReadIsWritten(pattern: string)
    ensures ShowAll(Tokens(pattern)) == pattern && MaximalMunch(Tokens(pattern))
    decreases |pattern|
  {
    if pattern != "" {
      hide MaximalMunch;
      var (t, n) := FirstToken(pattern);
      var rest := pattern[n..];
      ReadIsWritten(rest);
      assert Tokens(pattern) == [t] + Tokens(rest);
      assert pattern == Show(t) + rest;
      MunchCons(t, Tokens(rest));
      if rest != "" { ShownFirst(Tokens(rest)); }
    }
  }

  /** A pattern is read as these tokens exactly when they are written as the pattern, each wildcard as
      long as it can be. */
  lemma TokensExactly(pattern: string, tokens: seq<Token>)
    ensures Tokens(pattern) == tokens <==> ShowAll(tokens) == pattern && MaximalMunch(tokens)
  {
    hide Tokens, ShowAll, MaximalMunch;
    ReadIsWritten(pattern);
    if MaximalMunch(tokens) { WrittenIsRead(tokens); }
  }

  // ---- What patterns match -----------------------------------------------------------------------------

  /** No wildcard in it. */
  predicate Plain(s: string) { '*' !in s && '?' !in s }

  function Chars(s: string): seq<Token> {
    if s == "" then [] else [Exactly(s[0])] + Chars(s[1..])
  }

  lemma {:induction false} CharsAreRead(a: string, rest: string)
    requires Plain(a)
    ensures Tokens(a + rest) == Chars(a) + Tokens(rest)
    decreases |a|
  {
    hide Tokens;
    if a == "" {
      assert a + rest == rest && [] + Tokens(rest) == Tokens(rest);
    } else {
      CharsAreRead(a[1..], rest);
      assert a + rest == [a[0]] + (a[1..] + rest);
      TokensStep(a + rest, Exactly(a[0]), a[1..] + rest);
      assert Chars(a) + Tokens(rest) == [Exactly(a[0])] + (Chars(a[1..]) + Tokens(rest));
    }
  }

  /** A split is a piece of the first token and a split of the rest. */
  lemma SplitsFront(t: Token, rest: seq<Token>, path: string)
    ensures Splits([t] + rest, path) <==>
            exists k :: 0 <= k <= |path| && Covers(t, path[..k]) && Splits(rest, path[k..])
  {
    var all := [t] + rest;
    if Splits(all, path) {
      var pieces :| IsSplit(all, path, pieces);
      SplitCons(all, path, pieces, true);
      var k := |pieces[0]|;
      assert Covers(t, path[..k]) && IsSplit(rest, path[k..], pieces[1..]);
    }
    if k :| 0 <= k <= |path| && Covers(t, path[..k]) && Splits(rest, path[k..]) {
      var ps :| IsSplit(rest, path[k..], ps);
      JoinedCons(path[..k], ps);
      ConsSplits(all, path, k, ps);
    }
  }

  lemma {:induction false} CharsSplit(a: string, rest: seq<Token>, path: string)
    ensures Splits(Chars(a) + rest, path) <==> a <= path && Splits(rest, path[|a|..])
    decreases |a|
  {
    hide Splits;
    if a == "" {
      assert Chars(a) + rest == rest && path[0..] == path;
    } else {
      var c, b := a[0], a[1..];
      assert Chars(a) + rest == [Exactly(c)] + (Chars(b) + rest);
      SplitsFront(Exactly(c), Chars(b) + rest, path);
      if path != "" {
        CharsSplit(b, rest, path[1..]);
        assert path[..1] == [path[0]];
        if path[0] == c { assert a <= path <==> b <= path[1..]; }
        assert |a| <= |path| ==> path[1..][|b|..] == path[|a|..];
      }
      forall k | 0 <= k <= |path| && Covers(Exactly(c), path[..k]) ensures k == 1 && path[0] == c {
        assert |path[..k]| == k;
      }
    }
  }

  lemma NothingSplits(path: string)
    ensures Splits([], path) <==> path == ""
  {
    assert Joined([]) == "";
    if path == "" { assert IsSplit([], path, []); }
  }

  /** A plain text splits as itself. */
  lemma TextSplits(b: string, path: string)
    ensures Splits(Chars(b), path) <==> path == b
  {
    hide Splits;
    CharsSplit(b, [], path);
    assert Chars(b) + [] == Chars(b);
    if b <= path { NothingSplits(path[|b|..]); }
  }

  /** One wildcard between two plain texts. */
  lemma OneWildcardSplits(a: string, t: Token, b: string, path: string)
    ensures Splits(Chars(a) + ([t] + Chars(b)), path) <==> exists m: string :: Covers(t, m) && path == a + m + b
  {
    hide Splits;
    CharsSplit(a, [t] + Chars(b), path);
    if Splits(Chars(a) + ([t] + Chars(b)), path) { var m := WildcardTakes(a, t, b, path); }
    if m: string :| Covers(t, m) && path == a + m + b {
      var rest := path[|a|..];
      assert a <= path && rest[..|m|] == m && rest[|m|..] == b;
      TextSplits(b, b);
      SplitsFront(t, Chars(b), rest);
    }
  }

  lemma WildcardTakes(a: string, t: Token, b: string, path: string) returns (m: string)
    requires a <= path && Splits([t] + Chars(b), path[|a|..])
    ensures Covers(t, m) && path == a + m + b
  {
    hide Splits, Chars;
    var rest := path[|a|..];
    SplitsFront(t, Chars(b), rest);
    var k :| 0 <= k <= |rest| && Covers(t, rest[..k]) && Splits(Chars(b), rest[k..]);
    TextSplits(b, rest[k..]);
    m := rest[..k];
  }

  lemma OneWildcardRead(a: string, t: Token, b: string)
    requires Plain(a) && Plain(b) && !t.Exactly?
    requires t == Across && b != "" ==> b[0] != '/'
    ensures Tokens(a + Show(t) + b) == Chars(a) + ([t] + Chars(b))
  {
    hide Tokens, FirstToken;
    assert a + Show(t) + b == a + (Show(t) + b);
    CharsAreRead(a, Show(t) + b);
    assert b != "" ==> b[0] in b;
    FirstIsShown(t, b);
    TokensStep(Show(t) + b, t, b);
    CharsAreRead(b, "");
    NothingRead();
    assert b + "" == b && Chars(b) + [] == Chars(b);
  }

  lemma NothingRead()
    ensures Tokens("") == []
  {
  }

  /** A pattern with one wildcard and a slash is matched against the whole path. */
  lemma OneWildcard(a: string, t: Token, b: string, path: string)
    requires Plain(a) && Plain(b) && !t.Exactly? && '/' in a + Show(t) + b
    requires t == Across && b != "" ==> b[0] != '/'
    ensures Matches(a + Show(t) + b, path) <==> exists m: string :: Covers(t, m) && path == a + m + b
  {
    hide Splits, Tokens;
    OneWildcardRead(a, t, b);
    OneWildcardSplits(a, t, b, path);
  }

  /** `*` is any run within a segment. */
  lemma StarMeans(a: string, b: string, path: string)
    requires Plain(a) && Plain(b) && '/' in a + b
    ensures Matches(a + "*" + b, path) <==> exists m: string :: '/' !in m && path == a + m + b
  {
    OneWildcard(a, Segment, b, path);
    hide Matches;
    if m: string :| Covers(Segment, m) && path == a + m + b { assert '/' !in m; }
    if m: string :| '/' !in m && path == a + m + b { assert Covers(Segment, m); }
  }

  /** `**` is any run. */
  lemma DoubleStarMeans(a: string, b: string, path: string)
    requires Plain(a) && Plain(b) && '/' in a + b && (b != "" ==> b[0] != '/')
    ensures Matches(a + "**" + b, path) <==> exists m: string :: path == a + m + b
  {
    OneWildcard(a, Across, b, path);
    hide Matches;
    if m: string :| path == a + m + b { assert Covers(Across, m); }
  }

  /** `**` and a slash are nothing, or any run that ends in a slash. */
  lemma DoubleStarSlashMeans(a: string, b: string, path: string)
    requires Plain(a) && Plain(b)
    ensures Matches(a + "**/" + b, path) <==> exists m: string :: (m == "" || m[|m| - 1] == '/') && path == a + m + b
  {
    assert (a + "**/" + b)[|a| + 2] == '/';
    OneWildcard(a, Directories, b, path);
    hide Matches;
    if m: string :| Covers(Directories, m) && path == a + m + b { assert m == "" || m[|m| - 1] == '/'; }
    if m: string :| (m == "" || m[|m| - 1] == '/') && path == a + m + b { assert Covers(Directories, m); }
  }

  /** `?` is one character other than the slash. */
  lemma QuestionMeans(a: string, b: string, path: string)
    requires Plain(a) && Plain(b) && '/' in a + b
    ensures Matches(a + "?" + b, path) <==> exists c: char :: c != '/' && path == a + [c] + b
  {
    OneWildcard(a, AnyOne, b, path);
    hide Matches;
    if m: string :| Covers(AnyOne, m) && path == a + m + b { assert m == [m[0]]; }
    if c: char :| c != '/' && path == a + [c] + b { assert Covers(AnyOne, [c]); }
  }

  /** Without a wildcard a pattern with a slash is the path. */
  lemma PlainMeans(a: string, path: string)
    requires Plain(a) && '/' in a
    ensures Matches(a, path) <==> path == a
  {
    hide Splits, Tokens;
    CharsAreRead(a, "");
    NothingRead();
    assert a + "" == a && Chars(a) + [] == Chars(a);
    TextSplits(a, path);
  }

  /** The last segment of a path is what follows its last slash. */
  lemma {:induction false} LastSegmentIs(d: string, f: string)
    requires (d == "" || d[|d| - 1] == '/') && '/' !in f
    ensures LastSegment(d + f) == f
    decreases |f|
  {
    if f == "" {
      assert d + f == d;
    } else {
      hide LastSegment;
      var g, c := f[..|f| - 1], f[|f| - 1];
      assert c in f && forall x <- g :: x in f;
      LastSegmentIs(d, g);
      LastSegmentSnoc(d + g, c);
      Resnoc(d, f);
    }
  }

  lemma Resnoc(d: string, f: string)
    requires f != ""
    ensures d + f == (d + f[..|f| - 1]) + [f[|f| - 1]] && f == f[..|f| - 1] + [f[|f| - 1]]
  {
  }

  lemma LastSegmentSnoc(path: string, c: char)
    requires c != '/'
    ensures LastSegment(path + [c]) == LastSegment(path) + [c]
  {
    assert (path + [c])[..|path|] == path;
  }

  lemma LastSegmentEnds(path: string) returns (d: string)
    ensures (d == "" || d[|d| - 1] == '/') && path == d + LastSegment(path)
  {
    d := path[..|path| - |LastSegment(path)|];
  }

  /** `path` is a directory, or nothing, and a file name of the form `a*b`. */
  ghost predicate FileNamed(a: string, b: string, path: string) {
    exists d: string, m: string :: (d == "" || d[|d| - 1] == '/') && '/' !in m && path == d + (a + m + b)
  }

  lemma NamedByLastSegment(a: string, b: string, path: string)
    requires '/' !in a + b
    ensures FileNamed(a, b, path) <==> exists m: string :: Covers(Segment, m) && LastSegment(path) == a + m + b
  {
    hide LastSegment;
    if FileNamed(a, b, path) {
      var d: string, m: string :| (d == "" || d[|d| - 1] == '/') && '/' !in m && path == d + (a + m + b);
      assert forall c <- a + m + b :: c in a + b || c in m;
      LastSegmentIs(d, a + m + b);
      assert Covers(Segment, m);
    }
    if m: string :| Covers(Segment, m) && LastSegment(path) == a + m + b {
      var d := LastSegmentEnds(path);
      assert '/' !in m && path == d + (a + m + b);
    }
  }

  /** A pattern without a slash is matched against the file name alone, in any directory. */
  lemma FileNameMeans(a: string, b: string, path: string)
    requires Plain(a) && Plain(b) && '/' !in a + b
    ensures Matches(a + "*" + b, path) <==> FileNamed(a, b, path)
  {
    hide Splits, Tokens, LastSegment, FileNamed;
    assert '/' !in a + "*" + b;
    OneWildcardRead(a, Segment, b);
    OneWildcardSplits(a, Segment, b, LastSegment(path));
    NamedByLastSegment(a, b, path);
  }
}
