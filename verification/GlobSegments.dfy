// What `**/` has to do with whole path segments: it is meant to stand for any number of them, and the
// dynamic program lets it stand for any run that ends in a slash.

module GlobSegments {
  import opened Glob

  /** A segment starts at `at`; `start` says whether one starts at the front of the text. */
  predicate StartsAt(path: string, at: nat, start: bool)
    requires at <= |path|
  {
    if at == 0 then start else path[at - 1] == '/'
  }

  /** A split in which no `**` + `/` takes part of a segment: what it takes starts where a segment does. */
  ghost predicate IsWholeSplit(tokens: seq<Token>, path: string, pieces: seq<string>, start: bool) {
    IsSplit(tokens, path, pieces) &&
    forall i | 0 <= i < |tokens| :: tokens[i] == Directories && pieces[i] != "" ==> PieceStarts(path, pieces, i, start)
  }

  ghost predicate PieceStarts(path: string, pieces: seq<string>, i: nat, start: bool)
    requires i < |pieces|
  {
    var at := |Joined(pieces[..i])|;
    at <= |path| && StartsAt(path, at, start)
  }

  /** The pattern matches the path by whole segments. */
  ghost predicate MatchesWhole(pattern: string, path: string) {
    exists pieces: seq<string> :: IsWholeSplit(Tokens(pattern), Subject(pattern, path), pieces, true)
  }

  // ---- Matching from the left ----------------------------------------------------------------------

  /** The tokens can take the path one after the other; with `whole`, by whole segments only. */
  ghost predicate Fits(tokens: seq<Token>, path: string, start: bool, whole: bool)
    decreases |tokens|
  {
    if tokens == [] then path == "" else exists k: nat :: FitsBy(tokens, path, start, whole, k)
  }

  /** The first token takes the first `k` characters. */
  ghost predicate FitsBy(tokens: seq<Token>, path: string, start: bool, whole: bool, k: nat)
    requires tokens != []
    decreases |tokens|, 0
  {
    k <= |path| && Covers(tokens[0], path[..k]) &&
    (whole && tokens[0] == Directories && k > 0 ==> start) &&
    Fits(tokens[1..], path[k..], StartsAt(path, k, start), whole)
  }

  lemma {:induction false} JoinedCons(p: string, ps: seq<string>)
    ensures Joined([p] + ps) == p + Joined(ps)
    decreases |ps|
  {
    var all := [p] + ps;
    if ps == [] {
      assert all[..0] == [] && Joined([]) + p == p && p + "" == p;
    } else {
      var n := |ps| - 1;
      JoinedCons(p, ps[..n]);
      assert all[..|all| - 1] == [p] + ps[..n];
      assert (p + Joined(ps[..n])) + ps[n] == p + (Joined(ps[..n]) + ps[n]);
    }
  }

  /** A split is its first piece and a split of the rest. */
  lemma SplitCons(tokens: seq<Token>, path: string, pieces: seq<string>, start: bool)
    requires tokens != [] && IsSplit(tokens, path, pieces)
    ensures var k := |pieces[0]|;
            && k <= |path| && path[..k] == pieces[0] && Covers(tokens[0], pieces[0])
            && IsSplit(tokens[1..], path[k..], pieces[1..])
            && (IsWholeSplit(tokens, path, pieces, start) <==>
                  (tokens[0] == Directories && k > 0 ==> start) &&
                  IsWholeSplit(tokens[1..], path[k..], pieces[1..], StartsAt(path, k, start)))
  {
    var p, ps := pieces[0], pieces[1..];
    assert pieces == [p] + ps;
    JoinedCons(p, ps);
    assert path[|p|..] == Joined(ps);
    assert forall i | 0 <= i < |ps| :: Covers(tokens[1..][i], ps[i]) by {
      forall i | 0 <= i < |ps| ensures Covers(tokens[1..][i], ps[i]) { assert Covers(tokens[i + 1], pieces[i + 1]); }
    }
    forall i | 0 <= i < |ps|
      ensures PieceStarts(path, pieces, i + 1, start) == PieceStarts(path[|p|..], ps, i, StartsAt(path, |p|, start))
    {
      JoinedCons(p, ps[..i]);
      assert pieces[..i + 1] == [p] + ps[..i];
      PrefixFits(ps, i);
    }
    assert pieces[..0] == [];
    WholeFromParts(tokens, path, pieces, start);
  }

  lemma {:induction false} PrefixFits(ps: seq<string>, i: nat)
    requires i <= |ps|
    ensures |Joined(ps[..i])| <= |Joined(ps)|
    decreases |ps|
  {
    if i < |ps| {
      PrefixFits(ps[..|ps| - 1], i);
      assert ps[..|ps| - 1][..i] == ps[..i];
    } else {
      assert ps[..i] == ps;
    }
  }

  lemma WholeFromParts(tokens: seq<Token>, path: string, pieces: seq<string>, start: bool)
    requires tokens != [] && IsSplit(tokens, path, pieces) && |pieces[0]| <= |path|
    requires IsSplit(tokens[1..], path[|pieces[0]|..], pieces[1..])
    requires forall i | 0 <= i < |pieces[1..]| ::
               PieceStarts(path, pieces, i + 1, start) == PieceStarts(path[|pieces[0]|..], pieces[1..], i, StartsAt(path, |pieces[0]|, start))
    ensures IsWholeSplit(tokens, path, pieces, start) <==>
              (tokens[0] == Directories && pieces[0] != "" ==> start) &&
              IsWholeSplit(tokens[1..], path[|pieces[0]|..], pieces[1..], StartsAt(path, |pieces[0]|, start))
  {
    assert pieces[..0] == [] && Joined(pieces[..0]) == "";
    assert PieceStarts(path, pieces, 0, start) == start;
    var ps, rest, inner := pieces[1..], path[|pieces[0]|..], StartsAt(path, |pieces[0]|, start);
    if IsWholeSplit(tokens[1..], rest, ps, inner) && (tokens[0] == Directories && pieces[0] != "" ==> start) {
      forall i | 0 <= i < |tokens| && tokens[i] == Directories && pieces[i] != "" ensures PieceStarts(path, pieces, i, start) {
        if i > 0 { assert tokens[1..][i - 1] == Directories && ps[i - 1] != "" && PieceStarts(rest, ps, i - 1, inner); }
      }
    }
    if IsWholeSplit(tokens, path, pieces, start) {
      forall i | 0 <= i < |tokens[1..]| && tokens[1..][i] == Directories && ps[i] != "" ensures PieceStarts(rest, ps, i, inner) {
        assert PieceStarts(path, pieces, i + 1, start);
      }
    }
  }

  lemma {:induction false} FitsSplit(tokens: seq<Token>, path: string, pieces: seq<string>, start: bool)
    requires IsSplit(tokens, path, pieces)
    ensures Fits(tokens, path, start, false)
    ensures IsWholeSplit(tokens, path, pieces, start) ==> Fits(tokens, path, start, true)
    decreases |tokens|
  {
    if tokens != [] {
      SplitCons(tokens, path, pieces, start);
      var k := |pieces[0]|;
      FitsSplit(tokens[1..], path[k..], pieces[1..], StartsAt(path, k, start));
      assert FitsBy(tokens, path, start, false, k);
      assert IsWholeSplit(tokens, path, pieces, start) ==> FitsBy(tokens, path, start, true, k);
    }
  }

  lemma {:induction false} SplitFits(tokens: seq<Token>, path: string, start: bool, whole: bool) returns (pieces: seq<string>)
    requires Fits(tokens, path, start, whole)
    ensures IsSplit(tokens, path, pieces) && (whole ==> IsWholeSplit(tokens, path, pieces, start))
    decreases |tokens|
  {
    if tokens == [] {
      pieces := [];
    } else {
      var k: nat :| FitsBy(tokens, path, start, whole, k);
      var ps := SplitFits(tokens[1..], path[k..], StartsAt(path, k, start), whole);
      pieces := [path[..k]] + ps;
      JoinedCons(path[..k], ps);
      ConsSplits(tokens, path, k, ps);
      SplitCons(tokens, path, pieces, start);
      assert pieces[1..] == ps;
    }
  }

  lemma ConsSplits(tokens: seq<Token>, path: string, k: nat, ps: seq<string>)
    requires tokens != [] && k <= |path| && Covers(tokens[0], path[..k]) && IsSplit(tokens[1..], path[k..], ps)
    requires Joined([path[..k]] + ps) == path[..k] + Joined(ps)
    ensures IsSplit(tokens, path, [path[..k]] + ps)
  {
    var pieces := [path[..k]] + ps;
    assert path == path[..k] + path[k..];
    forall i | 0 <= i < |tokens| ensures Covers(tokens[i], pieces[i]) {
      if i > 0 { assert Covers(tokens[1..][i - 1], ps[i - 1]); }
    }
  }

  /** Matching is fitting, and matching by whole segments is fitting by whole segments. */
  lemma MatchingIsFitting(pattern: string, path: string)
    ensures Matches(pattern, path) <==> Fits(Tokens(pattern), Subject(pattern, path), true, false)
    ensures MatchesWhole(pattern, path) <==> Fits(Tokens(pattern), Subject(pattern, path), true, true)
  {
    var tokens, subject := Tokens(pattern), Subject(pattern, path);
    forall pieces: seq<string> | IsSplit(tokens, subject, pieces)
      ensures Fits(tokens, subject, true, false)
      ensures IsWholeSplit(tokens, subject, pieces, true) ==> Fits(tokens, subject, true, true)
    {
      FitsSplit(tokens, subject, pieces, true);
    }
    if Fits(tokens, subject, true, false) { var pieces := SplitFits(tokens, subject, true, false); }
    if Fits(tokens, subject, true, true) { var pieces := SplitFits(tokens, subject, true, true); }
  }

  // ---- When a match can always be by whole segments ----------------------------------------------------

  /** Does whatever the tokens match, behind any run that ends in a slash, match them too? `anchored` says
      that they start where a segment does. They do when they start with a `**`, with an anchored
      `**` + `/`, or with whole segments `*` + `/` before one of these. */
  predicate Swallows(tokens: seq<Token>, anchored: bool)
    decreases |tokens|
  {
    if tokens == [] then false
    else
      match tokens[0]
      case Across => true
      case Directories => anchored || Swallows(tokens[1..], false)
      case Segment => |tokens| > 1 && tokens[1] == Exactly('/') && Swallows(tokens[2..], true)
      case _ => false
  }

  /** Every `**` + `/` starts where a segment does, or after a `**` that can take its run instead, or
      before tokens that can. */
  predicate Harmless(tokens: seq<Token>, anchored: bool)
    decreases |tokens|
  {
    if tokens == [] then true
    else
      match tokens[0]
      case Directories => (anchored || Swallows(tokens[1..], false)) && Harmless(tokens[1..], anchored)
      case Across => Harmless(tokens[1..], true)
      case Exactly(c) => Harmless(tokens[1..], c == '/')
      case _ => Harmless(tokens[1..], false)
  }

  /** The plain case: first, behind a slash, behind a `**`, or behind another such `**` + `/`. */
  predicate Anchored(tokens: seq<Token>, anchored: bool)
    decreases |tokens|
  {
    if tokens == [] then true
    else
      match tokens[0]
      case Directories => anchored && Anchored(tokens[1..], anchored)
      case Across => Anchored(tokens[1..], true)
      case Exactly(c) => Anchored(tokens[1..], c == '/')
      case _ => Anchored(tokens[1..], false)
  }

  lemma {:induction false} AnchoredIsHarmless(tokens: seq<Token>, anchored: bool)
    requires Anchored(tokens, anchored)
    ensures Harmless(tokens, anchored)
    decreases |tokens|
  {
    if tokens != [] {
      match tokens[0]
      case Directories => AnchoredIsHarmless(tokens[1..], anchored);
      case Across => AnchoredIsHarmless(tokens[1..], true);
      case Exactly(c) => AnchoredIsHarmless(tokens[1..], c == '/');
      case _ => AnchoredIsHarmless(tokens[1..], false);
    }
  }

  lemma {:induction false} FitsAnyStart(tokens: seq<Token>, path: string, start: bool, other: bool)
    requires Fits(tokens, path, start, false)
    ensures Fits(tokens, path, other, false)
    decreases |tokens|
  {
    if tokens != [] {
      var k: nat :| FitsBy(tokens, path, start, false, k);
      FitsAnyStart(tokens[1..], path[k..], StartsAt(path, k, start), StartsAt(path, k, other));
      assert FitsBy(tokens, path, other, false, k);
    }
  }

  function FirstSlash(u: string): (j: nat)
    requires '/' in u
    ensures j < |u| && u[j] == '/' && '/' !in u[..j]
  {
    if u[0] == '/' then 0
    else
      assert u == [u[0]] + u[1..];
      var j := 1 + FirstSlash(u[1..]);
      assert u[..j] == [u[0]] + u[1..][..j - 1];
      j
  }

  lemma {:induction false} SwallowFits(tokens: seq<Token>, u: string, v: string, anchored: bool, start: bool)
    requires Swallows(tokens, anchored) && u != "" && u[|u| - 1] == '/' && Fits(tokens, v, start, false)
    ensures Fits(tokens, u + v, start, false)
    decreases |tokens|
  {
    var k: nat :| FitsBy(tokens, v, start, false, k);
    var w := u + v;
    if tokens[0] == Segment {
      SwallowSegment(tokens, u, v, k, start);
    } else {
      assert w[..|u| + k] == u + v[..k] && w[|u| + k..] == v[k..];
      FitsAnyStart(tokens[1..], v[k..], StartsAt(v, k, start), StartsAt(w, |u| + k, start));
      assert k == 0 ==> u + v[..k] == u;
      assert k > 0 ==> (u + v[..k])[|u| + k - 1] == v[..k][k - 1];
      assert FitsBy(tokens, w, start, false, |u| + k);
    }
  }

  /** Whole segments before tokens that swallow: the first segment of the run becomes the segment. */
  lemma SwallowSegment(tokens: seq<Token>, u: string, v: string, k: nat, start: bool)
    requires Swallows(tokens, false) && tokens != [] && tokens[0] == Segment && u != "" && u[|u| - 1] == '/'
    requires FitsBy(tokens, v, start, false, k)
    ensures Fits(tokens, u + v, start, false)
    decreases |tokens|, 0
  {
    var rest, w, j := tokens[2..], u + v, FirstSlash(u);
    assert Fits(tokens[1..], v[k..], StartsAt(v, k, start), false);
    var n: nat :| FitsBy(tokens[1..], v[k..], StartsAt(v, k, start), false, n);
    assert v[k..][..n] == "/" && n == 1;
    assert tokens[1..][1..] == rest && v[k..][1..] == v[k + 1..];
    assert v[k] == v[k..][0];
    var x := u[j + 1..] + v[..k + 1];
    FitsAnyStart(rest, v[k + 1..], StartsAt(v[k..], 1, StartsAt(v, k, start)), true);
    SwallowFits(rest, x, v[k + 1..], true, true);
    assert x + v[k + 1..] == w[j + 1..];
    assert w[..j] == u[..j] && w[j..][..1] == "/" && w[j..][1..] == w[j + 1..];
    assert FitsBy(tokens[1..], w[j..], StartsAt(w, j, start), false, 1);
    assert FitsBy(tokens, w, start, false, j);
  }

  /** A harmless pattern that fits does so by whole segments. */
  lemma {:induction false} Heal(tokens: seq<Token>, path: string, start: bool, anchored: bool)
    requires Fits(tokens, path, start, false) && Harmless(tokens, anchored) && (anchored ==> start)
    ensures Fits(tokens, path, start, true)
    decreases |tokens|
  {
    if tokens != [] {
      var k: nat :| FitsBy(tokens, path, start, false, k);
      var inner := StartsAt(path, k, start);
      match tokens[0]
      case Directories =>
        if anchored || k == 0 {
          Heal(tokens[1..], path[k..], inner, anchored);
          assert FitsBy(tokens, path, start, true, k);
        } else {
          HealRun(tokens, path, start, k);
        }
      case Across => HealAcross(tokens, path, start, k);
      case Exactly(c) =>
        assert path[0] == path[..k][0];
        Heal(tokens[1..], path[k..], inner, c == '/');
        assert FitsBy(tokens, path, start, true, k);
      case _ =>
        Heal(tokens[1..], path[k..], inner, false);
        assert FitsBy(tokens, path, start, true, k);
    }
  }

  /** A run that would cut a segment goes to the tokens behind, which swallow it. */
  lemma HealRun(tokens: seq<Token>, path: string, start: bool, k: nat)
    requires tokens != [] && tokens[0] == Directories && k > 0 && FitsBy(tokens, path, start, false, k)
    requires Swallows(tokens[1..], false) && Harmless(tokens[1..], false)
    ensures Fits(tokens, path, start, true)
    decreases |tokens|, 0
  {
    var rest := tokens[1..];
    SwallowFits(rest, path[..k], path[k..], false, StartsAt(path, k, start));
    assert path[..k] + path[k..] == path;
    FitsAnyStart(rest, path, StartsAt(path, k, start), start);
    Heal(rest, path, start, false);
    assert path[0..] == path && path[..0] == "";
    assert FitsBy(tokens, path, start, true, 0);
  }

  /** A `**` takes the runs of the `**` + `/` behind it along. */
  lemma HealAcross(tokens: seq<Token>, path: string, start: bool, k: nat)
    requires tokens != [] && tokens[0] == Across && FitsBy(tokens, path, start, false, k) && Harmless(tokens[1..], true)
    ensures Fits(tokens, path, start, true)
    decreases |tokens|, 0
  {
    var rest, inner := tokens[1..], StartsAt(path, k, start);
    if rest == [] || rest[0] != Directories {
      Heal(rest, path[k..], inner, false);
      assert FitsBy(tokens, path, start, true, k);
    } else {
      assert Fits(rest, path[k..], inner, false);
      var n: nat :| FitsBy(rest, path[k..], inner, false, n);
      var less := [Across] + rest[1..];
      assert less[1..] == rest[1..] && path[k..][n..] == path[k + n..];
      FitsAnyStart(rest[1..], path[k + n..], StartsAt(path[k..], n, inner), StartsAt(path, k + n, start));
      assert FitsBy(less, path, start, false, k + n);
      Heal(less, path, start, false);
      var m: nat :| FitsBy(less, path, start, true, m);
      var tail := path[m..];
      assert tail[0..] == tail && tail[..0] == "";
      assert FitsBy(rest, tail, StartsAt(path, m, start), true, 0);
      assert FitsBy(tokens, path, start, true, m);
    }
  }

  // ---- When a match must cut a segment ----------------------------------------------------------------

  /** The shortest text a token list matches. */
  function Shortest(tokens: seq<Token>): string {
    if tokens == [] then ""
    else
      match tokens[0]
      case Exactly(c) => [c] + Shortest(tokens[1..])
      case AnyOne => "x" + Shortest(tokens[1..])
      case _ => Shortest(tokens[1..])
  }

  lemma FitsCons(tokens: seq<Token>, path: string, start: bool, whole: bool, k: nat)
    requires tokens != [] && FitsBy(tokens, path, start, whole, k)
    ensures Fits(tokens, path, start, whole)
  {
  }

  lemma {:induction false} ShortestFits(tokens: seq<Token>, start: bool)
    ensures Fits(tokens, Shortest(tokens), start, false)
    decreases |tokens|
  {
    if tokens != [] {
      var w, rest := Shortest(tokens), Shortest(tokens[1..]);
      var k := if tokens[0].Exactly? || tokens[0].AnyOne? then 1 else 0;
      ShortestFits(tokens[1..], StartsAt(w, k, start));
      hide Fits;
      assert w[k..] == rest && (k == 0 ==> w[..k] == "") && (k == 1 ==> w[..k] == [w[0]]);
      FitsCons(tokens, w, start, false, k);
    }
  }

  lemma {:induction false} FitsIsLonger(tokens: seq<Token>, path: string, start: bool, whole: bool)
    requires Fits(tokens, path, start, whole)
    ensures |path| >= |Shortest(tokens)|
    decreases |tokens|
  {
    if tokens != [] {
      var k: nat :| FitsBy(tokens, path, start, whole, k);
      FitsIsLonger(tokens[1..], path[k..], StartsAt(path, k, start), whole);
      assert tokens[0].Exactly? || tokens[0].AnyOne? ==> k == 1;
    }
  }

  lemma {:induction false} FitsConcat(a: seq<Token>, b: seq<Token>, u: string, v: string, start: bool)
    requires Fits(a, u, start, false) && Fits(b, v, start, false)
    ensures Fits(a + b, u + v, start, false)
    decreases |a|
  {
    if a == [] {
      assert a + b == b && u + v == v;
    } else {
      var k: nat :| FitsBy(a, u, start, false, k);
      var inner := StartsAt(u, k, start);
      FitsAnyStart(b, v, start, inner);
      FitsConcat(a[1..], b, u[k..], v, inner);
      assert (a + b)[1..] == a[1..] + b && (u + v)[k..] == u[k..] + v && (u + v)[..k] == u[..k];
      FitsAnyStart((a + b)[1..], (u + v)[k..], inner, StartsAt(u + v, k, start));
      assert FitsBy(a + b, u + v, start, false, k);
    }
  }

  /** Where the second of two token lists begins. */
  lemma {:induction false} FitsDivides(a: seq<Token>, b: seq<Token>, path: string, start: bool) returns (m: nat)
    requires Fits(a + b, path, start, true)
    ensures m <= |path| && Fits(a, path[..m], start, true) && Fits(b, path[m..], StartsAt(path, m, start), true)
    decreases |a|
  {
    if a == [] {
      assert a + b == b && path[0..] == path && path[..0] == "";
      m := 0;
    } else {
      var all := a + b;
      assert all[1..] == a[1..] + b;
      var k: nat :| FitsBy(all, path, start, true, k);
      var inner := StartsAt(path, k, start);
      var n := FitsDivides(a[1..], b, path[k..], inner);
      m := k + n;
      assert path[..m][..k] == path[..k] && path[..m][k..] == path[k..][..n] && path[k..][n..] == path[m..];
      assert FitsBy(a, path[..m], start, true, k);
    }
  }

  /** How token lists come out of patterns: what follows a single `*` is no star. */
  predicate Tokenized(tokens: seq<Token>) {
    forall i | 0 <= i < |tokens| - 1 :: tokens[i] == Segment ==> tokens[i + 1].AnyOne? || tokens[i + 1].Exactly?
  }

  lemma {:induction false} PatternsAreTokenized(pattern: string)
    ensures Tokenized(Tokens(pattern))
    ensures Directories in Tokens(pattern) ==> '/' in pattern
    decreases |pattern|
  {
    if pattern != "" {
      var (t, n) := FirstToken(pattern);
      var rest := pattern[n..];
      PatternsAreTokenized(rest);
      assert Tokens(pattern) == [t] + Tokens(rest);
      if t == Directories { assert pattern[2] == '/'; }
      if t == Segment && rest != "" { assert rest[0] == pattern[1] != '*'; }
      assert forall c <- rest :: c in pattern;
    }
  }

  /** No `?` directly before a `**` + `/`. */
  predicate NoneAfterAnyOne(tokens: seq<Token>) {
    forall i | 0 <= i < |tokens| - 1 :: tokens[i] == AnyOne ==> tokens[i + 1] != Directories
  }

  lemma TokenizedTail(tokens: seq<Token>)
    requires tokens != [] && Tokenized(tokens)
    ensures Tokenized(tokens[1..]) && (NoneAfterAnyOne(tokens) ==> NoneAfterAnyOne(tokens[1..]))
  {
    var rest := tokens[1..];
    forall j | 0 <= j < |rest| - 1
      ensures rest[j] == Segment ==> rest[j + 1].AnyOne? || rest[j + 1].Exactly?
      ensures NoneAfterAnyOne(tokens) && rest[j] == AnyOne ==> rest[j + 1] != Directories
    {
      assert tokens[j + 1] == rest[j] && tokens[j + 1 + 1] == rest[j + 1];
    }
  }

  /** The first harmful `**` + `/` stands behind a literal other than the slash. */
  lemma {:induction false} FirstHarm(tokens: seq<Token>, anchored: bool) returns (i: nat)
    requires !Harmless(tokens, anchored) && Tokenized(tokens) && NoneAfterAnyOne(tokens)
    ensures i < |tokens| && tokens[i] == Directories && !Swallows(tokens[i + 1..], false)
    ensures if i == 0 then !anchored else tokens[i - 1].Exactly? && tokens[i - 1].c != '/'
    decreases |tokens|
  {
    if tokens[0] == Directories && !anchored && !Swallows(tokens[1..], false) {
      return 0;
    }
    var inner := match tokens[0] case Directories => anchored case Across => true case Exactly(c) => c == '/' case _ => false;
    var rest := tokens[1..];
    TokenizedTail(tokens);
    var n := FirstHarm(rest, inner);
    assert rest[n + 1..] == tokens[n + 2..];
    i := n + 1;
  }

  /** The character that tells apart what does not swallow from a run of others. */
  function Telling(tokens: seq<Token>): char
    decreases |tokens|
  {
    if tokens == [] then '/'
    else
      match tokens[0]
      case Directories => Telling(tokens[1..])
      case Exactly(c) => c
      case Segment =>
        if |tokens| > 1 && tokens[1] == Exactly('/') then Telling(tokens[2..])
        else if |tokens| > 1 && tokens[1].Exactly? then tokens[1].c
        else '/'
      case _ => '/'
  }

  /** A run, ending in a slash, that the tokens do not swallow. */
  function Indigestible(tokens: seq<Token>, z: char): (u: string)
    ensures u != "" && u[|u| - 1] == '/' && forall c <- u :: c == z || c == '/'
    decreases |tokens|
  {
    if tokens == [] then [z, '/']
    else
      match tokens[0]
      case Directories => Indigestible(tokens[1..], z)
      case AnyOne => "/"
      case Segment =>
        if |tokens| > 1 && tokens[1] == Exactly('/') then [z, '/'] + Indigestible(tokens[2..], z)
        else if |tokens| > 1 && tokens[1] == AnyOne then "/"
        else [z, '/']
      case _ => [z, '/']
  }

  lemma {:induction false} DoesNotSwallow(tokens: seq<Token>, z: char, rest: string, anchored: bool)
    requires !Swallows(tokens, anchored) && Tokenized(tokens) && z != '/' && z != Telling(tokens)
    ensures !Fits(tokens, Indigestible(tokens, z) + rest, anchored, true)
    decreases |tokens|
  {
    var w := Indigestible(tokens, z) + rest;
    if tokens != [] {
      forall k: nat ensures !FitsBy(tokens, w, anchored, true, k) {
        match tokens[0]
        case Directories =>
          DoesNotSwallow(tokens[1..], z, rest, false);
          assert w[0..] == w;
        case Segment => DoesNotSwallowSegment(tokens, z, rest, anchored, k);
        case Exactly(c) => assert k == 1 ==> w[..k][0] == w[0];
        case AnyOne => assert k == 1 ==> w[..k][0] == w[0];
        case Across =>
      }
    }
  }

  lemma DoesNotSwallowSegment(tokens: seq<Token>, z: char, rest: string, anchored: bool, k: nat)
    requires !Swallows(tokens, anchored) && Tokenized(tokens) && z != '/' && z != Telling(tokens)
    requires tokens != [] && tokens[0] == Segment
    ensures !FitsBy(tokens, Indigestible(tokens, z) + rest, anchored, true, k)
    decreases |tokens|, 0
  {
    var w := Indigestible(tokens, z) + rest;
    var slash := if w[0] == '/' then 0 else 1;
    assert w[slash] == '/';
    if slash < k <= |w| {
      assert w[..k][slash] == '/';
    } else if k <= slash {
      if |tokens| == 1 {
        assert tokens[1..] == [] && w[k..] != "";
      } else if tokens[1] == Exactly('/') {
        assert w[2..] == Indigestible(tokens[2..], z) + rest;
        TokenizedTail(tokens);
        TokenizedTail(tokens[1..]);
        assert tokens[1..][1..] == tokens[2..];
        DoesNotSwallow(tokens[2..], z, rest, true);
        SlashThen(tokens[1..], w[k..], StartsAt(w, k, anchored));
        assert k == 1 ==> w[k..][1..] == w[2..];
        assert w[k..][0] == w[k];
      } else {
        assert w[k..][0] == w[k];
        OneThen(tokens[1..], w[k..], StartsAt(w, k, anchored));
      }
    }
  }

  lemma FirstTakes(tokens: seq<Token>, path: string, start: bool, whole: bool) returns (k: nat)
    requires tokens != [] && Fits(tokens, path, start, whole)
    ensures FitsBy(tokens, path, start, whole, k)
  {
    k :| FitsBy(tokens, path, start, whole, k);
  }

  /** A slash takes a slash, and leaves a segment's start. */
  lemma SlashThen(tokens: seq<Token>, path: string, start: bool)
    requires tokens != [] && tokens[0] == Exactly('/') && path != ""
    ensures Fits(tokens, path, start, true) ==> path[0] == '/' && Fits(tokens[1..], path[1..], true, true)
  {
    if Fits(tokens, path, start, true) {
      var k := FirstTakes(tokens, path, start, true);
      assert path[..k][0] == path[0];
    }
  }

  /** One character that a token does not cover. */
  lemma OneThen(tokens: seq<Token>, path: string, start: bool)
    requires tokens != [] && (tokens[0].Exactly? || tokens[0].AnyOne?) && path != ""
    ensures Fits(tokens, path, start, true) ==> Covers(tokens[0], [path[0]])
  {
    if Fits(tokens, path, start, true) {
      var k := FirstTakes(tokens, path, start, true);
      assert path[..k] == [path[0]];
    }
  }

  /** A text ends as a last literal says. */
  lemma LastLiteral(tokens: seq<Token>, c: char, path: string, start: bool)
    requires tokens != [] && tokens[|tokens| - 1] == Exactly(c) && Fits(tokens, path, start, true)
    ensures path != "" && path[|path| - 1] == c
  {
    var front := tokens[..|tokens| - 1];
    assert tokens == front + [Exactly(c)];
    var m := FitsDivides(front, [Exactly(c)], path, start);
    var one, tail := [Exactly(c)], path[m..];
    assert one[1..] == [];
    var k: nat :| FitsBy(one, tail, StartsAt(path, m, start), true, k);
    assert Fits([], tail[k..], StartsAt(tail, k, StartsAt(path, m, start)), true);
    assert tail[..k] == tail == [c] && path[|path| - 1] == tail[0];
  }

  /** A path that the tokens match, but not by whole segments. */
  lemma CutPath(tokens: seq<Token>) returns (path: string)
    requires !Harmless(tokens, true) && Tokenized(tokens) && NoneAfterAnyOne(tokens)
    ensures Fits(tokens, path, true, false) && !Fits(tokens, path, true, true)
  {
    var i := FirstHarm(tokens, true);
    var front, behind, c := tokens[..i], tokens[i + 1..], tokens[i - 1].c;
    var z := if c != 'a' && Telling(behind) != 'a' then 'a' else if c != 'b' && Telling(behind) != 'b' then 'b' else 'd';
    var u := Indigestible(behind, z);
    path := Shortest(front) + (u + Shortest(behind));
    assert tokens == front + ([Directories] + behind);
    ShortestFits(front, true);
    ShortestFits(behind, true);
    RunFits(behind, u, Shortest(behind));
    FitsConcat(front, [Directories] + behind, Shortest(front), u + Shortest(behind), true);
    if Fits(tokens, path, true, true) { CutPathIsCut(front, behind, c, z, path); }
  }

  lemma RunFits(behind: seq<Token>, u: string, rest: string)
    requires u != "" && u[|u| - 1] == '/' && Fits(behind, rest, true, false)
    ensures Fits([Directories] + behind, u + rest, true, false)
  {
    var all, w := [Directories] + behind, u + rest;
    assert all[1..] == behind && w[..|u|] == u && w[|u|..] == rest;
    assert FitsBy(all, w, true, false, |u|);
  }

  lemma CutPathIsCut(front: seq<Token>, behind: seq<Token>, c: char, z: char, path: string)
    requires front != [] && front[|front| - 1] == Exactly(c) && c != '/' && z != '/' && z != c && z != Telling(behind)
    requires !Swallows(behind, false) && Tokenized(behind)
    requires path == Shortest(front) + (Indigestible(behind, z) + Shortest(behind))
    ensures !Fits(front + ([Directories] + behind), path, true, true)
  {
    DoesNotSwallow(behind, z, Shortest(behind), false);
    LeftToTheRest(front, behind, c, z, path);
  }

  /** The literal cannot stand in the run, nor beyond it: the rest gets the whole run. */
  lemma LeftToTheRest(front: seq<Token>, behind: seq<Token>, c: char, z: char, path: string)
    requires front != [] && front[|front| - 1] == Exactly(c) && c != '/' && z != c
    requires path == Shortest(front) + (Indigestible(behind, z) + Shortest(behind))
    ensures Fits(front + ([Directories] + behind), path, true, true) ==>
              Fits(behind, Indigestible(behind, z) + Shortest(behind), false, true)
  {
    if Fits(front + ([Directories] + behind), path, true, true) {
      var u, least := Indigestible(behind, z), |Shortest(front)|;
      var m := FitsDivides(front, [Directories] + behind, path, true);
      LastLiteral(front, c, path[..m], true);
      FitsIsLonger(front, path[..m], true, true);
      assert path[m - 1] == path[..m][m - 1] == c;
      WholeBehind(behind, path[m..]);
      FitsIsLonger(behind, path[m..], false, true);
      hide Fits;
      forall i | 0 <= i < |u| ensures u[i] != c { assert u[i] in u; }
      InTheRun(Shortest(front), u, Shortest(behind), path, m, c);
      assert path[least..] == u + Shortest(behind);
    }
  }

  lemma InTheRun(a: string, u: string, b: string, path: string, m: nat, c: char)
    requires path == a + (u + b) && |a| <= m <= |a| + |u| && m > 0 && path[m - 1] == c
    requires forall i | 0 <= i < |u| :: u[i] != c
    ensures m == |a|
  {
    assert forall i | |a| <= i < |a| + |u| :: path[i] == u[i - |a|];
  }

  /** In the middle of a segment a `**` + `/` takes nothing. */
  lemma WholeBehind(behind: seq<Token>, path: string)
    requires Fits([Directories] + behind, path, false, true)
    ensures Fits(behind, path, false, true)
  {
    var all := [Directories] + behind;
    var k: nat :| FitsBy(all, path, false, true, k);
    assert all[1..] == behind && path[0..] == path;
  }

  /** Every match of the pattern is one by whole segments. */
  ghost predicate MatchesByWholeSegments(pattern: string) {
    forall path: string :: Matches(pattern, path) <==> MatchesWhole(pattern, path)
  }

  /** What a harmless pattern matches, it matches by whole segments. */
  lemma HarmlessIsWhole(pattern: string)
    requires Harmless(Tokens(pattern), true)
    ensures MatchesByWholeSegments(pattern)
  {
    forall path: string ensures Matches(pattern, path) <==> MatchesWhole(pattern, path) {
      MatchingIsFitting(pattern, path);
      if Matches(pattern, path) { Heal(Tokens(pattern), Subject(pattern, path), true, true); }
      assert MatchesWhole(pattern, path) ==> Matches(pattern, path);
    }
  }

  /** A pattern with no `?` directly before a `**` + `/` matches by whole segments, for every path, if and
      only if it is harmless. */
  lemma WholeSegmentsExactly(pattern: string)
    requires NoneAfterAnyOne(Tokens(pattern))
    ensures MatchesByWholeSegments(pattern) <==> Harmless(Tokens(pattern), true)
  {
    if Harmless(Tokens(pattern), true) {
      HarmlessIsWhole(pattern);
    } else {
      PatternsAreTokenized(pattern);
      var path := CutPath(Tokens(pattern));
      var i := FirstHarm(Tokens(pattern), true);
      assert Directories in Tokens(pattern);
      assert Subject(pattern, path) == path;
      MatchingIsFitting(pattern, path);
    }
  }

  /** Behind a `?` a harmful `**` + `/` may still do no harm, when the `?` itself can give way: a pattern
      of this shape matches by whole segments all the same. */
  lemma AnyOneCanGiveWay()
    ensures !Harmless(Tokens("**?**//**"), true) && MatchesByWholeSegments("**?**//**")
  {
    var pattern := "**?**//**";
    var tokens := GivingWay();
    GivingWayTokens();
    assert pattern[5] == '/';
    forall path: string ensures Matches(pattern, path) <==> MatchesWhole(pattern, path) {
      assert MatchesWhole(pattern, path) ==> Matches(pattern, path);
      if pieces: seq<string> :| IsSplit(tokens, path, pieces) {
        var i := GivesWay(path, pieces);
        ShorterSplit(path, i);
      }
    }
  }

  // Behind a literal, too, the tokens that follow can take the run: "a" and "**/" and "**".
  lemma LiteralCanBeHarmless()
    ensures Tokens("a**/**") == [Exactly('a'), Directories, Across] && MatchesByWholeSegments("a**/**")
  {
    TokensStep("a**/**", Exactly('a'), "**/**");
    TokensStep("**/**", Directories, "**");
    TokensStep("**", Across, "");
    assert Tokens("") == [];
    hide Tokens;
    var tokens := [Exactly('a'), Directories, Across];
    assert tokens[1..] == [Directories, Across] && tokens[1..][1..] == [Across] && tokens[1..][1..][1..] == [];
    assert Swallows(tokens[1..][1..], false) && Harmless(tokens[1..][1..], false);
    assert Harmless(tokens[1..], false);
    HarmlessIsWhole("a**/**");
  }

  function GivingWay(): seq<Token> { [Across, AnyOne, Directories, Exactly('/'), Across] }

  lemma GivingWayTokens()
    ensures Tokens("**?**//**") == GivingWay()
  {
    TokensStep("**?**//**", Across, "?**//**");
    TokensStep("?**//**", AnyOne, "**//**");
    TokensStep("**//**", Directories, "/**");
    TokensStep("/**", Exactly('/'), "**");
    TokensStep("**", Across, "");
    assert Tokens("") == [];
  }

  lemma JoinedFive(p: seq<string>)
    requires |p| == 5
    ensures Joined(p) == p[0] + p[1] + p[2] + p[3] + p[4]
    ensures Joined(p[..2]) == p[0] + p[1]
  {
    assert p[..1][..0] == [] && Joined(p[..1]) == "" + p[0] == p[0];
    assert p[..2][..1] == p[..1] && Joined(p[..2]) == p[0] + p[1];
    assert p[..3][..2] == p[..2] && Joined(p[..3]) == p[0] + p[1] + p[2];
    assert p[..4][..3] == p[..3] && Joined(p[..4]) == p[0] + p[1] + p[2] + p[3];
  }

  /** The first slash behind the character that the `?` took. */
  lemma GivesWay(path: string, pieces: seq<string>) returns (i: nat)
    requires IsSplit(GivingWay(), path, pieces)
    ensures 0 < i < |path| && path[i] == '/' && path[i - 1] != '/'
  {
    JoinedFive(pieces);
    var at := |pieces[0]|;
    assert Covers(GivingWay()[1], pieces[1]) && Covers(GivingWay()[3], pieces[3]);
    assert path[at] == pieces[1][0] != '/';
    var tail := path[at..];
    assert path[|path| - |pieces[4]| - 1] == '/';
    assert tail[|tail| - |pieces[4]| - 1] == '/';
    var k := FirstSlash(tail);
    assert tail[0] != '/' && tail[k - 1] in tail[..k];
    i := at + k;
    assert path[i - 1] == tail[k - 1];
  }

  lemma ShorterSplit(path: string, i: nat)
    requires 0 < i < |path| && path[i] == '/' && path[i - 1] != '/'
    ensures exists pieces: seq<string> :: IsWholeSplit(GivingWay(), path, pieces, true)
  {
    var pieces := [path[..i - 1], [path[i - 1]], "", "/", path[i + 1..]];
    JoinedFive(pieces);
    assert Joined(pieces) == path;
    assert IsWholeSplit(GivingWay(), path, pieces, true);
  }

  // ---- When no way of matching cuts a segment ----------------------------------------------------------

  /** Every `**` + `/` comes first, directly behind a slash, or behind another such one. */
  predicate AlwaysAtStart(tokens: seq<Token>, at: bool)
    decreases |tokens|
  {
    if tokens == [] then true
    else
      match tokens[0]
      case Directories => at && AlwaysAtStart(tokens[1..], at)
      case Exactly(c) => AlwaysAtStart(tokens[1..], c == '/')
      case _ => AlwaysAtStart(tokens[1..], false)
  }

  lemma {:induction false} SplitIsWhole(tokens: seq<Token>, path: string, pieces: seq<string>, start: bool, at: bool)
    requires IsSplit(tokens, path, pieces) && AlwaysAtStart(tokens, at) && (at ==> start)
    ensures IsWholeSplit(tokens, path, pieces, start)
    decreases |tokens|
  {
    if tokens != [] {
      SplitCons(tokens, path, pieces, start);
      var k := |pieces[0]|;
      var next := match tokens[0] case Directories => at case Exactly(c) => c == '/' case _ => false;
      assert k > 0 ==> path[k - 1] == pieces[0][k - 1];
      SplitIsWhole(tokens[1..], path[k..], pieces[1..], StartsAt(path, k, start), next);
    }
  }

  lemma {:induction false} CutSplit(tokens: seq<Token>, at: bool) returns (path: string, pieces: seq<string>)
    requires !AlwaysAtStart(tokens, at)
    ensures IsSplit(tokens, path, pieces) && !IsWholeSplit(tokens, path, pieces, at)
    decreases |tokens|
  {
    var rest, ps;
    var piece: string;
    if tokens[0] == Directories && !at {
      piece, rest := "x/", Shortest(tokens[1..]);
      ShortestFits(tokens[1..], true);
      ps := SplitFits(tokens[1..], rest, true, false);
    } else {
      piece := match tokens[0] case Directories => "" case Exactly(c) => [c] case _ => "x";
      rest, ps := CutSplit(tokens[1..], if piece == "" then at else piece == "/");
    }
    path, pieces := piece + rest, [piece] + ps;
    assert path[..|piece|] == piece && path[|piece|..] == rest && pieces[1..] == ps;
    JoinedCons(piece, ps);
    ConsSplits(tokens, path, |piece|, ps);
    SplitCons(tokens, path, pieces, at);
    assert piece != "" ==> path[|piece| - 1] == piece[|piece| - 1];
  }

  /** No split of any path cuts a segment if and only if every `**` + `/` stands where one starts. */
  lemma EverySplitIsWholeExactly(tokens: seq<Token>)
    ensures (forall path: string, pieces: seq<string> | IsSplit(tokens, path, pieces) :: IsWholeSplit(tokens, path, pieces, true))
            <==> AlwaysAtStart(tokens, true)
  {
    if AlwaysAtStart(tokens, true) {
      forall path: string, pieces: seq<string> | IsSplit(tokens, path, pieces) ensures IsWholeSplit(tokens, path, pieces, true) {
        SplitIsWhole(tokens, path, pieces, true, true);
      }
    } else {
      var path, pieces := CutSplit(tokens, true);
    }
  }
}
