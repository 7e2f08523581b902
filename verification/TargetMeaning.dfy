/** What a path match means: when no substitution is missed, what the captures are, and what a second
    alternative makes of the captures of a failed first one. */
module TargetMeaning {
  import opened Wrappers
  import opened TemplateParser
  import opened TargetMatcher

  // ---- When nothing is missed --------------------------------------------------------------------

  /** Once greedy, greedy to the end. */
  predicate GreedySuffix(template: seq<Segment>) {
    forall i, j | 0 <= i < j < |template| :: template[i].kind == Greedy ==> template[j].kind == Greedy
  }

  /** No target that has a substitution is missed. */
  ghost predicate MissesNothing(template: seq<Segment>) {
    forall target: Path, p: seq<Path> | IsSubstitution(template, target, p) ::
      exists q: seq<Path> :: IsEager(template, target, q)
  }

  /** Segments that take one path segment each. */
  function Plain(template: seq<Segment>): nat {
    if template == [] then 0
    else Plain(template[..|template| - 1]) + if template[|template| - 1].kind == Greedy then 0 else 1
  }

  /** Where the i-th of `size` pieces starts when each takes one of `n` segments while there are any, and
      the last one takes the rest. */
  function Mark(size: nat, n: nat, i: nat): (at: nat)
    ensures at <= n
  {
    if i >= size || i > n then n else i
  }

  function Filling(template: seq<Segment>, target: Path): (pieces: seq<Path>)
    ensures |pieces| == |template|
  {
    var size, n := |template|, |target|;
    seq(size, i requires 0 <= i < size => target[Mark(size, n, i)..Mark(size, n, i + 1)])
  }

  lemma {:induction false} FillingFlat(template: seq<Segment>, target: Path, k: nat)
    requires 0 < |template| && k <= |template|
    ensures Flat(Filling(template, target)[..k]) == target[..Mark(|template|, |target|, k)]
    decreases k
  {
    var q := Filling(template, target);
    if k > 0 {
      FillingFlat(template, target, k - 1);
      assert q[..k][..k - 1] == q[..k - 1] && q[..k][k - 1] == q[k - 1];
    }
  }

  /** Pieces of one segment each. */
  lemma {:induction false} SinglesFlat(p: seq<Path>, k: nat)
    requires k <= |p| && forall i | 0 <= i < k :: |p[i]| == 1
    ensures |Flat(p[..k])| == k
  {
    if k > 0 {
      SinglesFlat(p, k - 1);
      assert p[..k][..k - 1] == p[..k - 1];
    }
  }

  /** Before the greedy suffix the i-th segment takes the i-th path segment. */
  lemma PlainPosition(template: seq<Segment>, target: Path, p: seq<Path>, i: nat)
    requires GreedySuffix(template) && IsSubstitution(template, target, p) && i < |template| && template[i].kind != Greedy
    ensures i < |target| && p[i] == [target[i]] && (i == |template| - 1 ==> |target| == |template|)
  {
    forall j | 0 <= j <= i ensures |p[j]| == 1 {
      assert template[j].kind != Greedy && Takes(template[j], p[j]);
    }
    SinglesFlat(p, i);
    PieceAt(p, i);
    assert target[i..i + 1] == [target[i]];
    if i == |template| - 1 {
      SinglesFlat(p, i + 1);
      assert p[..i + 1] == p;
    }
  }

  lemma FilledPlain(template: seq<Segment>, target: Path, i: nat)
    requires i < |template| && i < |target| && (i == |template| - 1 ==> |target| == |template|)
    ensures Filling(template, target)[i] == [target[i]]
  {
    assert target[i..i + 1] == [target[i]];
  }

  lemma SuffixFills(template: seq<Segment>, target: Path, p: seq<Path>)
    requires GreedySuffix(template) && IsSubstitution(template, target, p)
    ensures IsEager(template, target, Filling(template, target))
  {
    var q := Filling(template, target);
    if template != [] {
      FillingFlat(template, target, |template|);
      assert q[..|q|] == q && target[..|target|] == target;
      forall i | 0 <= i < |template| ensures Takes(template[i], q[i]) && EagerAt(template, target, q, i) {
        if template[i].kind != Greedy {
          PlainPosition(template, target, p, i);
          FilledPlain(template, target, i);
          assert Takes(template[i], p[i]);
        } else {
          FillingFlat(template, target, i);
        }
      }
    }
  }

  /** A target without anything for the greedy segments. */
  function Starved(template: seq<Segment>): (pieces: seq<Path>)
    ensures |pieces| == |template|
  {
    seq(|template|, i requires 0 <= i < |template| =>
      if template[i].kind == Greedy then [] else if template[i].kind == Literal then [template[i].value] else [""])
  }

  lemma {:induction false} FlatAtLeastPlain(template: seq<Segment>, p: seq<Path>)
    requires |p| == |template| && forall i | 0 <= i < |p| :: Takes(template[i], p[i])
    ensures |Flat(p)| >= Plain(template)
    ensures forall i | 0 <= i < |p| && template[i].kind == Greedy :: |Flat(p)| >= Plain(template) + |p[i]|
    decreases |p|
  {
    if p != [] {
      var n := |p| - 1;
      FlatAtLeastPlain(template[..n], p[..n]);
      forall i | 0 <= i < |p| && template[i].kind == Greedy ensures |Flat(p)| >= Plain(template) + |p[i]| {
        assert i < n ==> p[..n][i] == p[i] && template[..n][i] == template[i];
      }
      assert Takes(template[n], p[n]);
    }
  }

  lemma {:induction false} StarvedFlat(template: seq<Segment>, k: nat)
    requires k <= |template|
    ensures |Flat(Starved(template)[..k])| == Plain(template[..k])
    decreases k
  {
    var p := Starved(template);
    if k > 0 {
      StarvedFlat(template, k - 1);
      assert p[..k][..k - 1] == p[..k - 1] && template[..k][..k - 1] == template[..k - 1];
    }
  }

  /** A plain segment behind a greedy one: the starved target has a substitution and no eager one. */
  lemma StarvedIsMissed(template: seq<Segment>, i: nat, j: nat)
    requires i < j < |template| && template[i].kind == Greedy && template[j].kind != Greedy
    ensures var target := Flat(Starved(template));
            IsSubstitution(template, target, Starved(template)) && forall q: seq<Path> :: !IsEager(template, target, q)
  {
    var target := Flat(Starved(template));
    StarvedFlat(template, |template|);
    assert Starved(template)[..|template|] == Starved(template) && template[..|template|] == template;
    forall q: seq<Path> ensures !IsEager(template, target, q) {
      if IsSubstitution(template, target, q) { StarvedGreedy(template, target, q, i, j); }
    }
  }

  /** Where there is nothing to spare, a greedy segment with a plain one behind it gets nothing, although
      the target goes on. */
  lemma StarvedGreedy(template: seq<Segment>, target: Path, q: seq<Path>, i: nat, j: nat)
    requires i < j < |template| && template[i].kind == Greedy && template[j].kind != Greedy
    requires IsSubstitution(template, target, q) && |target| == Plain(template)
    ensures !EagerAt(template, target, q, i)
  {
    FlatAtLeastPlain(template, q);
    assert q[i] == [];
    PieceAt(q, j);
    PieceAt(q[..j], i);
    assert q[..j][..i] == q[..i];
    assert Takes(template[j], q[j]);
  }

  /** Greedy parameters are as documented, taking any number of segments, exactly on the templates whose
      greedy segments come last: on these, and on no others, no substitution is missed. */
  lemma MissesNothingExactly(template: seq<Segment>)
    ensures MissesNothing(template) <==> GreedySuffix(template)
  {
    if GreedySuffix(template) {
      forall target: Path, p: seq<Path> | IsSubstitution(template, target, p)
        ensures exists q: seq<Path> :: IsEager(template, target, q)
      {
        SuffixFills(template, target, p);
      }
    } else {
      var i, j :| 0 <= i < j < |template| && template[i].kind == Greedy && template[j].kind != Greedy;
      StarvedIsMissed(template, i, j);
      assert IsSubstitution(template, Flat(Starved(template)), Starved(template));
    }
  }

  /** With the greedy segments last, a target matches exactly when any substitution exists. */
  method MatchWithGreedySuffix(template: seq<Segment>, target: Path) returns (matched: bool)
    requires ValidSegments(template) && GreedySuffix(template)
    ensures matched <==> exists p: seq<Path> :: IsSubstitution(template, target, p)
  {
    var ctx := new Context();
    ghost var pieces;
    matched, pieces := Match(template, target, ctx);
    MissesNothingExactly(template);
    assert matched ==> IsSubstitution(template, target, pieces);
  }

  /** Elsewhere a match can be missed: `/{*p}/edit` does not match `/a/edit/edit`, because the greedy
      parameter stops at the first `edit` and never goes back. */
  lemma GreedyCanMiss()
    ensures var template := [Segment(Greedy, "p"), Segment(Literal, "edit")];
            var target := ["a", "edit", "edit"];
            IsSubstitution(template, target, [["a", "edit"], ["edit"]]) &&
            !exists p: seq<Path> :: IsEager(template, target, p)
  {
    var template := [Segment(Greedy, "p"), Segment(Literal, "edit")];
    var target := ["a", "edit", "edit"];
    var good: seq<Path> := [["a", "edit"], ["edit"]];
    assert good[..1] == [["a", "edit"]] && good[..1][..0] == [];
    assert Flat(good[..1]) == ["a", "edit"];
    assert Flat(good) == target;
    forall p: seq<Path> | IsSubstitution(template, target, p) ensures !EagerAt(template, target, p, 0) {
      GoalOfTwo(target, p);
      assert p[0][1..][0] == "edit";
      assert template[1].value in p[0][1..];
    }
  }

  lemma GoalOfTwo(target: Path, p: seq<Path>)
    requires |target| == 3 && |p| == 2 && Flat(p) == target && |p[1]| == 1
    ensures p[0] == target[..2] && Flat(p[..0]) != target
  {
    PieceAt(p, 0);
    PieceAt(p, 1);
    assert p[..1] == [p[0]] && p[..1][..0] == [] && p[..0] == [];
    assert Flat(p[..1]) == [] + p[0] == p[0];
    assert Flat(p) == p[0] + p[1];
  }

  // ---- What the captures are -----------------------------------------------------------------------

  predicate DistinctNames(template: seq<Segment>) {
    forall i, j | 0 <= i < j < |template| ::
      template[i].kind != Literal && template[j].kind != Literal ==> template[i].value != template[j].value
  }

  /** From no arguments and with distinct names, each parameter's argument is its own piece, joined,
      and there are no other arguments. */
  lemma {:induction false} CapturesAreThePieces(template: seq<Segment>, pieces: seq<Path>)
    requires |pieces| <= |template| && DistinctNames(template)
    ensures var args := Captures(map[], template, pieces);
            (forall i | 0 <= i < |pieces| && template[i].kind != Literal ::
               template[i].value in args && args[template[i].value] == Joined(pieces[i])) &&
            (forall k <- args :: exists i :: 0 <= i < |pieces| && template[i].kind != Literal && template[i].value == k)
    decreases |pieces|
  {
    if pieces != [] {
      var n := |pieces| - 1;
      CapturesAreThePieces(template, pieces[..n]);
      var before := Captures(map[], template, pieces[..n]);
      assert forall i | 0 <= i < n :: pieces[..n][i] == pieces[i];
      if template[n].kind != Literal {
        assert template[n].value !in before;
      }
      var args := Captures(map[], template, pieces);
      forall k <- args ensures exists i :: 0 <= i < |pieces| && template[i].kind != Literal && template[i].value == k {
        if k in before {
          var i :| 0 <= i < |pieces[..n]| && template[i].kind != Literal && template[i].value == k;
          assert 0 <= i < |pieces|;
        } else {
          assert template[n].kind != Literal && template[n].value == k;
        }
      }
    }
  }

  // ---- One match, one substitution --------------------------------------------------------------------

  /** A piece before a literal is not shorter in one eager substitution than in another. */
  lemma NotShorter(template: seq<Segment>, target: Path, p: seq<Path>, q: seq<Path>, k: nat)
    requires IsEager(template, target, p) && IsEager(template, target, q) && k + 1 < |template| && p[..k] == q[..k]
    requires template[k].kind == Greedy && template[k + 1].kind == Literal
    ensures |p[k]| >= |q[k]|
  {
    GoalPiece(template, target, p, k);
    GoalPiece(template, target, p, k + 1);
    GoalPiece(template, target, q, k);
    var at := |Flat(p[..k])| + |p[k]|;
    assert p[k + 1] == target[at..at + 1] == [target[at]];
  }

  lemma SamePiece(template: seq<Segment>, target: Path, p: seq<Path>, q: seq<Path>, k: nat)
    requires IsEager(template, target, p) && IsEager(template, target, q) && k < |template| && p[..k] == q[..k]
    ensures p[k] == q[k]
  {
    GoalPiece(template, target, p, k);
    GoalPiece(template, target, q, k);
    if template[k].kind == Greedy {
      if k + 1 == |template| {
        assert p[..k + 1] == p && q[..k + 1] == q;
      } else if template[k + 1].kind == Literal {
        NotShorter(template, target, p, q, k);
        NotShorter(template, target, q, p, k);
      }
    }
  }

  lemma {:induction false} SamePrefix(template: seq<Segment>, target: Path, p: seq<Path>, q: seq<Path>, k: nat)
    requires IsEager(template, target, p) && IsEager(template, target, q) && k <= |template|
    ensures p[..k] == q[..k]
    decreases k
  {
    if k > 0 {
      SamePrefix(template, target, p, q, k - 1);
      SamePiece(template, target, p, q, k - 1);
      assert p[..k] == p[..k - 1] + [p[k - 1]] && q[..k] == q[..k - 1] + [q[k - 1]];
    }
  }

  /** A target has one eager substitution at most: the match and its captures are determined. */
  lemma EagerIsUnique(template: seq<Segment>, target: Path, p: seq<Path>, q: seq<Path>)
    requires IsEager(template, target, p) && IsEager(template, target, q)
    ensures p == q
  {
    SamePrefix(template, target, p, q, |template|);
    assert p[..|template|] == p && q[..|template|] == q;
  }

  // ---- Captures over earlier arguments -----------------------------------------------------------------

  predicate IsName(template: seq<Segment>, name: string) {
    exists s <- template :: s.kind != Literal && s.value == name
  }

  /** Each parameter holds its own piece. */
  predicate OwnPieces(args: map<string, string>, template: seq<Segment>, pieces: seq<Path>)
    requires |pieces| <= |template|
  {
    forall i | 0 <= i < |pieces| && template[i].kind != Literal ::
      template[i].value in args && args[template[i].value] == Joined(pieces[i])
  }

  /** No earlier argument stands against a piece. */
  predicate NoConflict(earlier: map<string, string>, template: seq<Segment>, pieces: seq<Path>)
    requires |pieces| <= |template|
  {
    forall i | 0 <= i < |pieces| && template[i].kind != Literal ::
      template[i].value in earlier ==> earlier[template[i].value] == Joined(pieces[i])
  }

  /** Earlier arguments stay, and only names of the template are added. */
  lemma {:induction false} CapturesKeep(earlier: map<string, string>, template: seq<Segment>, pieces: seq<Path>)
    requires |pieces| <= |template|
    ensures var args := Captures(earlier, template, pieces);
            (forall k <- earlier :: k in args && args[k] == earlier[k]) &&
            (forall k <- args :: k in earlier || IsName(template, k))
    decreases |pieces|
  {
    if pieces != [] {
      var n := |pieces| - 1;
      CapturesKeep(earlier, template, pieces[..n]);
      assert template[n] in template;
    }
  }

  lemma {:induction false} CapturesOver(earlier: map<string, string>, template: seq<Segment>, pieces: seq<Path>)
    requires |pieces| <= |template| && DistinctNames(template)
    ensures var args := Captures(earlier, template, pieces);
            (forall i | 0 <= i < |pieces| && template[i].kind != Literal ::
               template[i].value in args &&
               args[template[i].value] == if template[i].value in earlier then earlier[template[i].value] else Joined(pieces[i])) &&
            (forall i | |pieces| <= i < |template| && template[i].kind != Literal ::
               template[i].value in args ==> template[i].value in earlier)
    decreases |pieces|
  {
    if pieces != [] {
      var n := |pieces| - 1;
      CapturesOver(earlier, template, pieces[..n]);
      CapturesKeep(earlier, template, pieces[..n]);
      assert forall i | 0 <= i < n :: pieces[..n][i] == pieces[i];
    }
  }

  /** Over earlier arguments each parameter gets its own piece exactly when those that are there already
      say the same. */
  lemma CapturesAreOwnExactly(earlier: map<string, string>, template: seq<Segment>, pieces: seq<Path>)
    requires |pieces| <= |template| && DistinctNames(template)
    ensures OwnPieces(Captures(earlier, template, pieces), template, pieces) <==> NoConflict(earlier, template, pieces)
  {
    CapturesOver(earlier, template, pieces);
  }

  /** Nothing a failed alternative leaves behind can stand in the way of the next one when they share no
      names and no earlier argument has one of its names. */
  predicate KeepApart(args: map<string, string>, first: seq<Segment>, second: seq<Segment>) {
    forall s <- second :: s.kind != Literal ==> s.value !in args && !IsName(first, s.value)
  }

  lemma ApartMeansNoConflict(args: map<string, string>, first: seq<Segment>, taken: seq<Path>, second: seq<Segment>, pieces: seq<Path>)
    requires |taken| <= |first| && |pieces| <= |second| && KeepApart(args, first, second)
    ensures NoConflict(Captures(args, first, taken), second, pieces)
  {
    CapturesKeep(args, first, taken);
    forall i | 0 <= i < |pieces| && second[i].kind != Literal ensures second[i].value !in Captures(args, first, taken) {
      assert second[i] in second;
    }
  }

  /** `target == first || target == second` in one context. What a failed first alternative has taken stays;
      the captures of a second one that matches are right exactly when that does not conflict with them,
      and always when the two are kept apart. */
  method MatchEither(first: seq<Segment>, second: seq<Segment>, target: Path, ctx: Context)
    returns (matched: bool, ghost taken: seq<Path>, ghost pieces: Option<seq<Path>>)
    requires ValidSegments(first) && ValidSegments(second) && DistinctNames(second)
    modifies ctx
    ensures matched <==> (exists p: seq<Path> :: IsEager(first, target, p)) || exists p: seq<Path> :: IsEager(second, target, p)
    ensures |taken| <= |first|
    ensures pieces.None? ==> ctx.pathArgs == Captures(old(ctx.pathArgs), first, taken) && matched && IsEager(first, target, taken)
    ensures pieces.Some? ==>
              && |pieces.value| <= |second| && StuckAt(first, target, taken)
              && var left := Captures(old(ctx.pathArgs), first, taken);
              && ctx.pathArgs == Captures(left, second, pieces.value)
              && (matched ==> IsEager(second, target, pieces.value))
              && (OwnPieces(ctx.pathArgs, second, pieces.value) <==> NoConflict(left, second, pieces.value))
              && (KeepApart(old(ctx.pathArgs), first, second) ==> OwnPieces(ctx.pathArgs, second, pieces.value))
  {
    hide IsEager, StuckAt, Captures, OwnPieces, NoConflict, KeepApart, DistinctNames, ValidSegment;
    pieces := None;
    matched, taken := Match(first, target, ctx);
    if !matched {
      ghost var p;
      matched, p := Match(second, target, ctx);
      pieces := Some(p);
      CapturesAreOwnExactly(Captures(old(ctx.pathArgs), first, taken), second, p);
      if KeepApart(old(ctx.pathArgs), first, second) {
        ApartMeansNoConflict(old(ctx.pathArgs), first, taken, second, p);
      }
    }
  }

  /** A conflict is possible: on `/a/b/d` the matcher `target == "/{x}/b/c" || target == "/a/{x}/d"` ends
      with x == "a", taken by the alternative that failed. */
  method StaleCapture() returns (matched: bool, args: map<string, string>)
    ensures matched && args == map["x" := "a"]
  {
    var left := [Segment(Param, "x"), Segment(Literal, "b"), Segment(Literal, "c")];
    var right := [Segment(Literal, "a"), Segment(Param, "x"), Segment(Literal, "d")];
    var path := ["a", "b", "d"];
    var context := new Context();
    ghost var taken, pieces;
    LeftFails(left, path);
    RightMatches(right, path);
    matched, taken, pieces := MatchEither(left, right, path, context);
    LeftTakes(left, path, taken);
    RightKeeps(right, pieces.value, map["x" := "a"]);
    args := context.pathArgs;
  }

  lemma LeftFails(left: seq<Segment>, path: Path)
    requires left == [Segment(Param, "x"), Segment(Literal, "b"), Segment(Literal, "c")] && path == ["a", "b", "d"]
    ensures forall p: seq<Path> :: !IsEager(left, path, p)
  {
    forall p: seq<Path> ensures !IsSubstitution(left, path, p) {
      LastPlain(left, path, p);
    }
  }

  /** The last of plain segments takes the last path segment. */
  lemma LastPlain(template: seq<Segment>, path: Path, p: seq<Path>)
    requires template != [] && forall s <- template :: s.kind != Greedy
    ensures IsSubstitution(template, path, p) ==>
              |path| == |template| && p[|template| - 1] == [path[|template| - 1]] && Takes(template[|template| - 1], p[|template| - 1])
  {
    if IsSubstitution(template, path, p) { PlainPosition(template, path, p, |template| - 1); }
  }

  lemma LeftTakes(left: seq<Segment>, path: Path, taken: seq<Path>)
    requires left == [Segment(Param, "x"), Segment(Literal, "b"), Segment(Literal, "c")] && path == ["a", "b", "d"]
    requires StuckAt(left, path, taken)
    ensures Captures(map[], left, taken) == map["x" := "a"]
  {
    assert left[0].kind == Param && left[1].value == path[1] && left[2].value != path[2];
    assert |taken| == 2;
    assert taken[..1][..0] == [] && taken[..1][0] == ["a"];
    assert Captures(map[], left, taken[..1][..0]) == map[];
    assert Captures(map[], left, taken[..1]) == Emplaced(map[], "x", Joined(["a"]));
  }

  lemma RightMatches(right: seq<Segment>, path: Path)
    requires right == [Segment(Literal, "a"), Segment(Param, "x"), Segment(Literal, "d")] && path == ["a", "b", "d"]
    ensures exists p: seq<Path> :: IsEager(right, path, p)
  {
    var p: seq<Path> := [["a"], ["b"], ["d"]];
    assert p[..2][..1][..0] == [] && Flat(p[..2][..1][..0]) == [];
    assert Flat(p[..2][..1]) == [] + ["a"] && Flat(p[..2]) == ["a"] + ["b"];
    assert Flat(p) == ["a"] + ["b"] + ["d"];
    assert IsEager(right, path, p);
  }

  /** An argument that is there already keeps its value. */
  lemma RightKeeps(right: seq<Segment>, pieces: seq<Path>, args: map<string, string>)
    requires right == [Segment(Literal, "a"), Segment(Param, "x"), Segment(Literal, "d")] && "x" in args
    requires |pieces| <= 3
    ensures Captures(args, right, pieces) == args
    decreases |pieces|
  {
    if pieces != [] { RightKeeps(right, pieces[..|pieces| - 1], args); }
  }

  // ---- Substituting the captures back ---------------------------------------------------------------------

  /** A captured text taken apart at its slashes; there is at least one part. */
  function Parts(s: string): (r: Path)
    ensures r != [] && forall part <- r :: '/' !in part
  {
    if '/' !in s then [s]
    else
      var k := LastSlash(s);
      Parts(s[..k]) + [s[k + 1..]]
  }

  function LastSlash(s: string): (k: nat)
    requires '/' in s
    ensures k < |s| && s[k] == '/' && '/' !in s[k + 1..]
  {
    if s[|s| - 1] == '/' then |s| - 1
    else
      assert s == s[..|s| - 1] + [s[|s| - 1]];
      LastSlash(s[..|s| - 1])
  }

  /** The path segments a greedy capture stands for. */
  function Reread(s: string): Path {
    if s == "" then [] else Parts(s)
  }

  /** A greedy piece that its joined text gives back: no segment holds a slash, and it is not one empty
      segment. */
  predicate Recoverable(piece: Path) {
    (forall part <- piece :: '/' !in part) && piece != [""]
  }

  lemma {:induction false} PartsOfJoined(piece: Path)
    requires piece != [] && forall part <- piece :: '/' !in part
    ensures Parts(Joined(piece)) == piece && (Joined(piece) == "" ==> piece == [""])
    decreases |piece|
  {
    if |piece| > 1 {
      var n := |piece| - 1;
      PartsOfJoined(piece[..n]);
      PartsStep(Joined(piece[..n]), piece[n]);
      hide Parts;
      assert piece == piece[..n] + [piece[n]];
    }
  }

  lemma PartsStep(front: string, last: string)
    requires '/' !in last
    ensures Parts(front + "/" + last) == Parts(front) + [last] && front + "/" + last != ""
  {
    LastSlashIs(front, last);
  }

  lemma LastSlashIs(front: string, last: string)
    requires '/' !in last
    ensures var s := front + "/" + last;
            '/' in s && LastSlash(s) == |front| && s[..|front|] == front && s[|front| + 1..] == last
  {
    var s := front + "/" + last;
    assert s[|front|] == '/';
    assert forall j | |front| < j < |s| :: s[j] == last[j - |front| - 1];
  }

  /** The template with the arguments in the places of its parameters. */
  function Substituted(template: seq<Segment>, args: map<string, string>): (pieces: seq<Path>)
    requires forall s <- template :: s.kind != Literal ==> s.value in args
    ensures |pieces| == |template|
  {
    seq(|template|, i requires 0 <= i < |template| =>
      match template[i].kind
      case Literal => [template[i].value]
      case Param => [args[template[i].value]]
      case Greedy => Reread(args[template[i].value]))
  }

  function Expand(template: seq<Segment>, args: map<string, string>): Path
    requires forall s <- template :: s.kind != Literal ==> s.value in args
  {
    Flat(Substituted(template, args))
  }

  /** How many segments hold a slash of their own. */
  function Slashed(path: Path): nat {
    if path == [] then 0 else Slashed(path[..|path| - 1]) + if '/' in path[|path| - 1] then 1 else 0
  }

  lemma {:induction false} SlashedConcat(a: Path, b: Path)
    ensures Slashed(a + b) == Slashed(a) + Slashed(b)
    decreases |b|
  {
    if b == [] {
      assert a + b == a;
    } else {
      SlashedConcat(a, b[..|b| - 1]);
      assert (a + b)[..|a + b| - 1] == a + b[..|b| - 1];
    }
  }

  lemma {:induction false} SlashedNone(path: Path)
    ensures Slashed(path) == 0 <==> forall part <- path :: '/' !in part
    decreases |path|
  {
    if path != [] {
      SlashedNone(path[..|path| - 1]);
      assert path == path[..|path| - 1] + [path[|path| - 1]];
    }
  }

  /** Fewer slashes piece by piece are fewer in all. */
  lemma {:induction false} FlatSlashes(p: seq<Path>, q: seq<Path>)
    requires |p| == |q| && forall i | 0 <= i < |p| :: Slashed(q[i]) <= Slashed(p[i])
    ensures Slashed(Flat(q)) <= Slashed(Flat(p))
    ensures (exists i :: 0 <= i < |p| && Slashed(q[i]) < Slashed(p[i])) ==> Slashed(Flat(q)) < Slashed(Flat(p))
    decreases |p|
  {
    hide Slashed;
    if p != [] {
      var n := |p| - 1;
      assert forall i | 0 <= i < n :: p[..n][i] == p[i] && q[..n][i] == q[i];
      FlatSlashes(p[..n], q[..n]);
      SlashedConcat(Flat(p[..n]), p[n]);
      SlashedConcat(Flat(q[..n]), q[n]);
    }
  }

  /** Shorter pieces are a shorter whole. */
  lemma {:induction false} FlatLengths(p: seq<Path>, q: seq<Path>)
    requires |p| == |q| && forall i | 0 <= i < |p| :: |q[i]| <= |p[i]|
    ensures |Flat(q)| <= |Flat(p)|
    ensures (exists i :: 0 <= i < |p| && |q[i]| < |p[i]|) ==> |Flat(q)| < |Flat(p)|
    decreases |p|
  {
    if p != [] {
      var n := |p| - 1;
      assert forall i | 0 <= i < n :: p[..n][i] == p[i] && q[..n][i] == q[i];
      FlatLengths(p[..n], q[..n]);
    }
  }

  /** What substituting makes of one piece. */
  lemma PieceReread(piece: Path)
    ensures Recoverable(piece) ==> Reread(Joined(piece)) == piece
    ensures Slashed(Reread(Joined(piece))) == 0
    ensures Slashed(piece) == 0 && !Recoverable(piece) ==> |Reread(Joined(piece))| < |piece|
    ensures Slashed(piece) == 0 ==> |Reread(Joined(piece))| <= |piece|
  {
    SlashedNone(piece);
    SlashedNone(Reread(Joined(piece)));
    if piece != [] && Slashed(piece) == 0 { PartsOfJoined(piece); }
  }

  /** Substituting the captures of a match into the template gives the target back, segment by segment,
      exactly when every greedy piece survives being joined to one text. */
  lemma ExpandGivesTarget(template: seq<Segment>, target: Path, pieces: seq<Path>)
    requires DistinctNames(template) && IsSubstitution(template, target, pieces)
    ensures var args := Captures(map[], template, pieces);
            (forall s <- template :: s.kind != Literal ==> s.value in args) &&
            (Expand(template, args) == target <==>
               forall i | 0 <= i < |template| && template[i].kind == Greedy :: Recoverable(pieces[i]))
  {
    var args := Captures(map[], template, pieces);
    CapturesAreThePieces(template, pieces);
    var q := Substituted(template, args);
    forall i | 0 <= i < |template|
      ensures template[i].kind != Greedy ==> q[i] == pieces[i]
      ensures template[i].kind == Greedy ==> q[i] == Reread(Joined(pieces[i]))
    {
      assert Takes(template[i], pieces[i]);
      if template[i].kind == Param { assert Joined(pieces[i]) == pieces[i][0]; }
    }
    forall i | 0 <= i < |template|
      ensures Slashed(q[i]) <= Slashed(pieces[i])
      ensures template[i].kind == Greedy && Recoverable(pieces[i]) ==> q[i] == pieces[i]
      ensures template[i].kind == Greedy && !Recoverable(pieces[i]) ==>
                Slashed(q[i]) < Slashed(pieces[i]) || (Slashed(pieces[i]) == 0 && |q[i]| < |pieces[i]|)
      ensures Slashed(pieces[i]) == Slashed(q[i]) ==> |q[i]| <= |pieces[i]|
    {
      PieceReread(pieces[i]);
    }
    FlatSlashes(pieces, q);
    if forall i | 0 <= i < |pieces| :: |q[i]| <= |pieces[i]| { FlatLengths(pieces, q); }
    if forall i | 0 <= i < |template| && template[i].kind == Greedy :: Recoverable(pieces[i]) {
      assert q == pieces;
    }
  }
}
