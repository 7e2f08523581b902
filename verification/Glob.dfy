/** `cache_rules::glob_match`: a dynamic program over path positions against what a pattern means. */
module Glob {
  datatype Token =
    | Segment                 // "*": any run without '/'
    | Across                  // "**": any run
    | Directories             // "**/": nothing, or any run ending in '/'
    | AnyOne                  // "?": one character other than '/'
    | Exactly(c: char)

  /** The first token of a pattern and its length. */
  function FirstToken(pattern: string): (r: (Token, nat))
    requires pattern != ""
    ensures 1 <= r.1 <= |pattern|
  {
    if pattern[0] == '*' then
      var cross := |pattern| > 1 && pattern[1] == '*';
      if cross && |pattern| > 2 && pattern[2] == '/' then (Directories, 3)
      else if cross then (Across, 2)
      else (Segment, 1)
    else if pattern[0] == '?' then (AnyOne, 1)
    else (Exactly(pattern[0]), 1)
  }

  function Tokens(pattern: string): seq<Token>
    decreases |pattern|
  {
    if pattern == "" then []
    else var (t, n) := FirstToken(pattern); [t] + Tokens(pattern[n..])
  }

  /** The pieces of a path that one token stands for. */
  predicate Covers(t: Token, piece: string) {
    match t
    case Segment => '/' !in piece
    case Across => true
    case Directories => piece == "" || piece[|piece| - 1] == '/'
    case AnyOne => |piece| == 1 && piece[0] != '/'
    case Exactly(c) => piece == [c]
  }

  function Joined(pieces: seq<string>): string {
    if pieces == [] then "" else Joined(pieces[..|pieces| - 1]) + pieces[|pieces| - 1]
  }

  /** `path` splits into pieces covered token by token. */
  ghost predicate Splits(tokens: seq<Token>, path: string) {
    exists pieces: seq<string> :: IsSplit(tokens, path, pieces)
  }

  ghost predicate IsSplit(tokens: seq<Token>, path: string, pieces: seq<string>) {
    |pieces| == |tokens| && Joined(pieces) == path && forall i | 0 <= i < |tokens| :: Covers(tokens[i], pieces[i])
  }

  /** What the pattern is matched against: without a `/` in it, the last segment of the path. */
  function Subject(pattern: string, path: string): string {
    if '/' in pattern then path else LastSegment(path)
  }

  function LastSegment(path: string): (r: string)
    ensures '/' !in r && |r| <= |path| && path[|path| - |r|..] == r
    ensures |r| < |path| ==> path[|path| - |r| - 1] == '/'
  {
    if path == "" || path[|path| - 1] == '/' then ""
    else LastSegment(path[..|path| - 1]) + [path[|path| - 1]]
  }

  /** The pattern matches the path. */
  ghost predicate Matches(pattern: string, path: string) {
    Splits(Tokens(pattern), Subject(pattern, path))
  }

  // ---- One token further --------------------------------------------------------------------

  lemma SplitDropLast(tokens: seq<Token>, t: Token, path: string, pieces: seq<string>) returns (k: nat)
    requires IsSplit(tokens + [t], path, pieces)
    ensures k <= |path| && Splits(tokens, path[..k]) && Covers(t, path[k..])
  {
    var n := |tokens|;
    var front := pieces[..n];
    k := |Joined(front)|;
    assert pieces[..|pieces| - 1] == front && pieces[|pieces| - 1] == pieces[n];
    assert path == Joined(front) + pieces[n];
    assert path[..k] == Joined(front) && path[k..] == pieces[n];
    assert Covers((tokens + [t])[n], pieces[n]);
    forall i | 0 <= i < n ensures Covers(tokens[i], front[i]) {
      assert Covers((tokens + [t])[i], pieces[i]);
    }
    assert IsSplit(tokens, path[..k], front);
  }

  lemma SplitAppend(tokens: seq<Token>, t: Token, path: string, k: nat)
    requires k <= |path| && Splits(tokens, path[..k]) && Covers(t, path[k..])
    ensures Splits(tokens + [t], path)
  {
    var pieces :| IsSplit(tokens, path[..k], pieces);
    var more := pieces + [path[k..]];
    assert more[..|more| - 1] == pieces;
    assert path[..k] + path[k..] == path;
    assert IsSplit(tokens + [t], path, more);
  }

  /** The last piece of a split can be taken off. */
  lemma SplitsSnoc(tokens: seq<Token>, t: Token, path: string)
    ensures Splits(tokens + [t], path) <==>
            exists k :: 0 <= k <= |path| && Splits(tokens, path[..k]) && Covers(t, path[k..])
  {
    if Splits(tokens + [t], path) {
      var pieces :| IsSplit(tokens + [t], path, pieces);
      var k := SplitDropLast(tokens, t, path, pieces);
    }
    if k :| 0 <= k <= |path| && Splits(tokens, path[..k]) && Covers(t, path[k..]) {
      SplitAppend(tokens, t, path, k);
    }
  }

  /** Position `j` is reached from some position of `row` by a piece of `t`. */
  ghost predicate Reached(row: seq<bool>, t: Token, path: string, j: nat)
    requires j <= |path| && |row| == |path| + 1
  {
    exists k :: 0 <= k <= j && row[k] && Covers(t, path[k..j])
  }

  /** The row of positions reached by `tokens`. */
  ghost predicate IsRow(tokens: seq<Token>, path: string, row: seq<bool>) {
    |row| == |path| + 1 && forall j | 0 <= j <= |path| :: row[j] <==> Splits(tokens, path[..j])
  }

  lemma NextRow(tokens: seq<Token>, t: Token, path: string, row: seq<bool>, next: seq<bool>)
    requires IsRow(tokens, path, row)
    requires |next| == |path| + 1 && forall j | 0 <= j <= |path| :: next[j] <==> Reached(row, t, path, j)
    ensures IsRow(tokens + [t], path, next)
  {
    forall j | 0 <= j <= |path| ensures next[j] <==> Splits(tokens + [t], path[..j]) {
      SplitsSnoc(tokens, t, path[..j]);
      assert forall k | 0 <= k <= j :: path[..j][..k] == path[..k] && path[..j][k..] == path[k..j];
      if Reached(row, t, path, j) {
        var k :| 0 <= k <= j && row[k] && Covers(t, path[k..j]);
        assert Splits(tokens, path[..j][..k]) && Covers(t, path[..j][k..]);
      }
      if Splits(tokens + [t], path[..j]) {
        var k :| 0 <= k <= |path[..j]| && Splits(tokens, path[..j][..k]) && Covers(t, path[..j][k..]);
        assert row[k] && Covers(t, path[k..j]);
      }
    }
  }

  // ---- The recurrences of the rows ------------------------------------------------------------

  lemma StarStep(row: seq<bool>, t: Token, path: string, j: nat)
    requires t == Segment || t == Across
    requires 0 < j <= |path| && |row| == |path| + 1
    ensures Reached(row, t, path, j) <==>
            row[j] || (Reached(row, t, path, j - 1) && (t == Across || path[j - 1] != '/'))
  {
    forall k | 0 <= k < j ensures path[k..j] == path[k..j - 1] + [path[j - 1]] {}
    if row[j] { assert Covers(t, path[j..j]); }
    if Reached(row, t, path, j - 1) && (t == Across || path[j - 1] != '/') {
      var k :| 0 <= k <= j - 1 && row[k] && Covers(t, path[k..j - 1]);
      assert Covers(t, path[k..j]);
    }
    if Reached(row, t, path, j) && !row[j] {
      var k :| 0 <= k <= j && row[k] && Covers(t, path[k..j]);
      assert Covers(t, path[k..j - 1]);
      assert path[j - 1] in path[k..j];
    }
  }

  lemma DirectoriesStep(row: seq<bool>, path: string, j: nat)
    requires j <= |path| && |row| == |path| + 1
    ensures Reached(row, Directories, path, j) <==>
            row[j] || (0 < j && path[j - 1] == '/' && exists k :: 0 <= k < j && row[k])
  {
    if row[j] { assert Covers(Directories, path[j..j]); }
    if 0 < j && path[j - 1] == '/' && exists k :: 0 <= k < j && row[k] {
      var k :| 0 <= k < j && row[k];
      assert path[k..j][|path[k..j]| - 1] == path[j - 1];
      assert Covers(Directories, path[k..j]);
    }
    if Reached(row, Directories, path, j) && !row[j] {
      var k :| 0 <= k <= j && row[k] && Covers(Directories, path[k..j]);
      assert path[k..j][|path[k..j]| - 1] == path[j - 1];
    }
  }

  lemma OneStep(row: seq<bool>, t: Token, path: string, j: nat)
    requires t == AnyOne || t.Exactly?
    requires j <= |path| && |row| == |path| + 1
    ensures Reached(row, t, path, j) <==> 0 < j && row[j - 1] && Covers(t, [path[j - 1]])
  {
    if 0 < j { assert path[j - 1..j] == [path[j - 1]]; }
    if Reached(row, t, path, j) {
      var k :| 0 <= k <= j && row[k] && Covers(t, path[k..j]);
      assert |path[k..j]| == 1;
    }
  }

  // ---- The loops --------------------------------------------------------------------------------

  /** Fill `next` with the positions one token further than `reach`. */
  method Advance(t: Token, path: string, reach: array<bool>, next: array<bool>) returns (ghost cost: nat)
    requires reach.Length == next.Length == |path| + 1 && reach != next
    modifies next
    ensures forall j | 0 <= j <= |path| :: next[j] <==> Reached(reach[..], t, path, j)
    ensures cost <= |path| + 1
  {
    ghost var row := reach[..];
    cost := 0;
    match t
    case Directories =>
      var seen := false;
      for j := 0 to |path| + 1
        invariant reach[..] == row && cost == j
        invariant seen <==> exists k :: 0 <= k < j && row[k]
        invariant forall i | 0 <= i < j :: next[i] <==> Reached(row, t, path, i)
      {
        DirectoriesStep(row, path, j);
        next[j] := reach[j] || (seen && j > 0 && path[j - 1] == '/');
        if reach[j] { seen := true; }
        cost := cost + 1;
      }
    case AnyOne => cost := AdvanceOne(t, path, reach, next);
    case Exactly(_) => cost := AdvanceOne(t, path, reach, next);
    case Segment => cost := AdvanceStar(false, path, reach, next);
    case Across => cost := AdvanceStar(true, path, reach, next);
  }

  method AdvanceStar(cross: bool, path: string, reach: array<bool>, next: array<bool>) returns (ghost cost: nat)
    requires reach.Length == next.Length == |path| + 1 && reach != next
    modifies next
    ensures forall j | 0 <= j <= |path| :: next[j] <==> Reached(reach[..], if cross then Across else Segment, path, j)
    ensures cost <= |path| + 1
  {
    ghost var row := reach[..];
    ghost var t := if cross then Across else Segment;
    cost := 0;
    for j := 0 to |path| + 1
      invariant reach[..] == row && cost == j
      invariant forall i | 0 <= i < j :: next[i] <==> Reached(row, t, path, i)
    {
      if j > 0 { StarStep(row, t, path, j); } else { assert path[0..0] == ""; }
      next[j] := reach[j] || (j > 0 && next[j - 1] && (cross || path[j - 1] != '/'));
      cost := cost + 1;
    }
  }

  method AdvanceOne(t: Token, path: string, reach: array<bool>, next: array<bool>) returns (ghost cost: nat)
    requires t == AnyOne || t.Exactly?
    requires reach.Length == next.Length == |path| + 1 && reach != next
    modifies next
    ensures forall j | 0 <= j <= |path| :: next[j] <==> Reached(reach[..], t, path, j)
    ensures cost <= |path| + 1
  {
    ghost var row := reach[..];
    next[0] := false;
    cost := 1;
    OneStep(row, t, path, 0);
    for j := 0 to |path|
      invariant reach[..] == row && cost == j + 1
      invariant forall i | 0 <= i <= j :: next[i] <==> Reached(row, t, path, i)
    {
      OneStep(row, t, path, j + 1);
      next[j + 1] := reach[j] && (if t == AnyOne then path[j] != '/' else path[j] == t.c);
      cost := cost + 1;
    }
  }

  /** True exactly when the pattern matches the path, within |pattern| rows of |path| + 1 positions. */
  method GlobMatch(pattern: string, path: string) returns (r: bool, ghost cost: nat)
    ensures r <==> Matches(pattern, path)
    ensures cost <= |pattern| * (|path| + 1)
  {
    var subject := Subject(pattern, path);
    var n := |subject| + 1;
    var reach, next := new bool[n], new bool[n];
    for i := 0 to n
      invariant forall j | 0 <= j < i :: !reach[j]
    {
      reach[i] := false;
    }
    reach[0] := true;
    var p := 0;
    ghost var done: seq<Token> := [];
    cost := 0;
    EmptyRow(subject, reach[..]);
    assert pattern[0..] == pattern && [] + Tokens(pattern) == Tokens(pattern);
    while p < |pattern|
      invariant p <= |pattern| && fresh(reach) && fresh(next) && reach != next
      invariant reach.Length == next.Length == n
      invariant done + Tokens(pattern[p..]) == Tokens(pattern)
      invariant IsRow(done, subject, reach[..])
      invariant cost <= p * n
    {
      var (t, length) := FirstToken(pattern[p..]);
      assert pattern[p..][length..] == pattern[p + length..];
      assert done + ([t] + Tokens(pattern[p + length..])) == (done + [t]) + Tokens(pattern[p + length..]);
      ghost var c := Advance(t, subject, reach, next);
      NextRow(done, t, subject, reach[..], next[..]);
      CostGrows(p, length, n, cost, c);
      cost := cost + c;
      done := done + [t];
      p := p + length;
      reach, next := next, reach;
    }
    assert pattern[p..] == "" && done + [] == done;
    assert subject[..|subject|] == subject;
    CostBound(p, n, |path| + 1);
    r := reach[|subject|];
  }

  lemma EmptyRow(path: string, row: seq<bool>)
    requires |row| == |path| + 1 && row[0] && forall j | 1 <= j <= |path| :: !row[j]
    ensures IsRow([], path, row)
  {
    forall j | 0 <= j <= |path| ensures row[j] <==> Splits([], path[..j]) {
      if j == 0 { assert IsSplit([], path[..j], []); }
    }
  }

  lemma CostGrows(p: nat, length: nat, n: nat, cost: nat, c: nat)
    requires cost <= p * n && c <= n && length >= 1
    ensures cost + c <= (p + length) * n
  {
    assert (p + length) * n == p * n + length * n && n <= length * n;
  }

  lemma CostBound(p: nat, n: nat, m: nat)
    requires n <= m
    ensures p * n <= p * m
  {
  }

  // A run that ends in a slash need not start where a segment does: "a**/b" matches "ax/b".
  lemma DirectoriesCutSegments()
    ensures Matches("a**/b", "ax/b")
  {
    ExampleTokens();
    hide Tokens;
    var pieces := ["a", "x/", "b"];
    ExampleJoined(pieces);
    assert "a**/b"[3] == '/';
    assert IsSplit(Tokens("a**/b"), "ax/b", pieces);
  }

  lemma ExampleTokens()
    ensures Tokens("a**/b") == [Exactly('a'), Directories, Exactly('b')]
  {
    TokensStep("a**/b", Exactly('a'), "**/b");
    TokensStep("**/b", Directories, "b");
    TokensStep("b", Exactly('b'), "");
    hide FirstToken;
    assert Tokens("") == [];
  }

  lemma TokensStep(pattern: string, t: Token, rest: string)
    requires pattern != "" && FirstToken(pattern).0 == t && pattern[FirstToken(pattern).1..] == rest
    ensures Tokens(pattern) == [t] + Tokens(rest)
  {
    hide FirstToken;
  }

  lemma ExampleJoined(pieces: seq<string>)
    requires pieces == ["a", "x/", "b"]
    ensures Joined(pieces) == "ax/b"
  {
    assert pieces[..2] == ["a", "x/"] && ["a", "x/"][..1] == ["a"] && ["a"][..0] == [];
    assert Joined([]) + "a" == "a";
    assert Joined(["a"]) == "a";
    assert Joined(["a", "x/"]) == "a" + "x/" == "ax/";
  }
}
