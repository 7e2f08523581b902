/** The matching loop of `target == "..."`: path segments against a parsed template. */
module TargetMatcher {
  import opened TemplateParser

  type Path = seq<string>

  /** `path_args` of the request context; `emplace` keeps the first value of a name. */
  class Context {
    var pathArgs: map<string, string>

    constructor ()
      ensures pathArgs == map[]
    {
      pathArgs := map[];
    }

    method Emplace(name: string, value: string)
      modifies this
      ensures pathArgs == Emplaced(old(pathArgs), name, value)
    {
      if name !in pathArgs { pathArgs := pathArgs[name := value]; }
    }
  }

  function Emplaced(args: map<string, string>, name: string, value: string): map<string, string> {
    if name in args then args else args[name := value]
  }

  function Joined(p: Path): string {
    if p == [] then ""
    else if |p| == 1 then p[0]
    else Joined(p[..|p| - 1]) + "/" + p[|p| - 1]
  }

  // ---- What a match means ---------------------------------------------------------------------

  /** The pieces laid end to end. */
  function Flat(pieces: seq<Path>): Path {
    if pieces == [] then [] else Flat(pieces[..|pieces| - 1]) + pieces[|pieces| - 1]
  }

  /** A literal takes itself, a parameter one segment, a greedy parameter any number. */
  predicate Takes(s: Segment, piece: Path) {
    match s.kind
    case Literal => piece == [s.value]
    case Param => |piece| == 1
    case Greedy => true
  }

  /** The target splits into one piece a template segment. */
  predicate IsSubstitution(template: seq<Segment>, target: Path, pieces: seq<Path>) {
    |pieces| == |template| && Flat(pieces) == target &&
    forall i | 0 <= i < |template| :: Takes(template[i], pieces[i])
  }

  /** A greedy parameter that is not last takes one segment if there is one; before a literal it goes
      on up to, and not beyond, the literal's next occurrence. */
  predicate EagerAt(template: seq<Segment>, target: Path, pieces: seq<Path>, i: nat)
    requires |pieces| == |template| && i < |template|
  {
    template[i].kind == Greedy && i + 1 < |template| ==>
      if Flat(pieces[..i]) == target then pieces[i] == []
      else
        pieces[i] != [] &&
        if template[i + 1].kind == Literal then template[i + 1].value !in pieces[i][1..] else |pieces[i]| == 1
  }

  predicate IsEager(template: seq<Segment>, target: Path, pieces: seq<Path>) {
    IsSubstitution(template, target, pieces) &&
    forall i | 0 <= i < |template| :: EagerAt(template, target, pieces, i)
  }

  /** The arguments after the first `|pieces|` template segments have taken their pieces. */
  function Captures(args: map<string, string>, template: seq<Segment>, pieces: seq<Path>): map<string, string>
    requires |pieces| <= |template|
  {
    if pieces == [] then args
    else
      var n := |pieces| - 1;
      var before := Captures(args, template, pieces[..n]);
      if template[n].kind == Literal then before else Emplaced(before, template[n].value, Joined(pieces[n]))
  }

  // ---- Progress ----------------------------------------------------------------------------------

  /** `pieces` have been taken by the first template segments, up to `at` in the target. */
  ghost predicate Progress(template: seq<Segment>, target: Path, pieces: seq<Path>, at: nat) {
    |pieces| <= |template| && at <= |target| && Flat(pieces) == target[..at] &&
    forall i | 0 <= i < |pieces| :: Takes(template[i], pieces[i]) && EagerSoFar(template, target, pieces, i)
  }

  /** `EagerAt`, as far as the pieces go. */
  ghost predicate EagerSoFar(template: seq<Segment>, target: Path, pieces: seq<Path>, i: nat)
    requires |pieces| <= |template| && i < |pieces|
  {
    template[i].kind == Greedy && i + 1 < |template| ==>
      if Flat(pieces[..i]) == target then pieces[i] == []
      else
        pieces[i] != [] &&
        if template[i + 1].kind == Literal then template[i + 1].value !in pieces[i][1..] else |pieces[i]| == 1
  }

  lemma ProgressGrows(template: seq<Segment>, target: Path, pieces: seq<Path>, at: nat, to: nat)
    requires Progress(template, target, pieces, at) && at <= to <= |target| && |pieces| < |template|
    requires Takes(template[|pieces|], target[at..to])
    requires template[|pieces|].kind == Greedy && |pieces| + 1 < |template| ==>
               if at == |target| then at == to
               else
                 at < to &&
                 if template[|pieces| + 1].kind == Literal then template[|pieces| + 1].value !in target[at + 1..to] else to == at + 1
    ensures Progress(template, target, pieces + [target[at..to]], to)
  {
    var more := pieces + [target[at..to]];
    assert more[..|pieces|] == pieces;
    assert target[..at] + target[at..to] == target[..to];
    assert at < to ==> target[at..to][1..] == target[at + 1..to];
    assert at < |target| ==> Flat(pieces) != target;
    assert at == |target| ==> target[..at] == target;
    forall i | 0 <= i < |more| ensures Takes(template[i], more[i]) && EagerSoFar(template, target, more, i) {
      if i < |pieces| {
        assert more[..i] == pieces[..i];
        assert EagerSoFar(template, target, pieces, i);
      }
    }
  }

  lemma ProgressDone(template: seq<Segment>, target: Path, pieces: seq<Path>)
    requires Progress(template, target, pieces, |target|) && |pieces| == |template|
    ensures IsEager(template, target, pieces)
  {
    assert target[..|target|] == target;
    forall i | 0 <= i < |template| ensures EagerAt(template, target, pieces, i) {
      assert EagerSoFar(template, target, pieces, i);
    }
  }

  /** The k-th piece of a substitution sits in the target right after the pieces before it. */
  lemma {:induction false} PieceAt(pieces: seq<Path>, k: nat)
    requires k < |pieces|
    ensures |Flat(pieces[..k])| + |pieces[k]| <= |Flat(pieces)|
    ensures var at := |Flat(pieces[..k])|;
            Flat(pieces)[..at] == Flat(pieces[..k]) && Flat(pieces)[at..at + |pieces[k]|] == pieces[k]
    decreases |pieces|
  {
    var n := |pieces| - 1;
    if k < n {
      PieceAt(pieces[..n], k);
      assert pieces[..n][..k] == pieces[..k];
    }
  }

  /** How far the loop has got: after `done` whole pieces and, with a greedy parameter pending from
      `from`, some way into the next. */
  datatype Cursor = Cursor(at: nat, next: nat, pending: bool, from: nat)

  /** The cursor that the loop's variables stand for: a name says that a greedy parameter is pending. */
  ghost function Here(at: nat, next: nat, name: string, from: nat): Cursor {
    if name == "" then Cursor(at, next, false, 0) else Cursor(at, next, true, from)
  }

  ghost predicate Sound(template: seq<Segment>, target: Path, pieces: seq<Path>, c: Cursor) {
    c.at <= |target| && c.next <= |template| &&
    if !c.pending then c.next == |pieces| && Progress(template, target, pieces, c.at)
    else
      c.next == |pieces| + 1 && c.from <= c.at && c.next < |template| && template[|pieces|].kind == Greedy &&
      Progress(template, target, pieces, c.from) &&
      (c.from < |target| ==>
         c.from < c.at && (template[c.next].kind == Literal ==> template[c.next].value !in target[c.from + 1..c.at]) &&
         (template[c.next].kind != Literal ==> c.at == c.from + 1)) &&
      (c.from == |target| ==> c.at == c.from)
  }

  /** The eager substitution `goal` agrees with what has been done. */
  ghost predicate Agrees(template: seq<Segment>, target: Path, pieces: seq<Path>, c: Cursor, goal: seq<Path>) {
    IsEager(template, target, goal) && |pieces| <= |goal| && goal[..|pieces|] == pieces &&
    (c.pending ==> 0 < c.next <= |goal| && c.at - c.from <= |goal[c.next - 1]|)
  }

  /** The pending greedy piece ends at the cursor. */
  lemma ClosePending(template: seq<Segment>, target: Path, pieces: seq<Path>, c: Cursor)
    requires Sound(template, target, pieces, c) && c.pending
    ensures Sound(template, target, pieces + [target[c.from..c.at]], Cursor(c.at, c.next, false, 0))
  {
    ProgressGrows(template, target, pieces, c.from, c.at);
  }

  /** Where the goal's next piece lies. */
  lemma GoalPiece(template: seq<Segment>, target: Path, goal: seq<Path>, k: nat)
    requires IsEager(template, target, goal) && k < |goal|
    ensures var at := |Flat(goal[..k])|;
            at + |goal[k]| <= |target| && target[at..at + |goal[k]|] == goal[k] && Takes(template[k], goal[k]) &&
            (at == |target| <==> Flat(goal[..k]) == target) && EagerAt(template, target, goal, k) &&
            |Flat(goal[..k + 1])| == at + |goal[k]|
  {
    PieceAt(goal, k);
    assert target[..|target|] == target;
    assert goal[..k + 1][..k] == goal[..k] && goal[..k + 1][k] == goal[k];
  }

  /** The goal's pending piece ends at the cursor when the next template segment is no literal, or a
      literal that accepts the segment there. */
  lemma PendingGoalEnds(template: seq<Segment>, target: Path, pieces: seq<Path>, c: Cursor, goal: seq<Path>)
    requires Sound(template, target, pieces, c) && Agrees(template, target, pieces, c, goal) && c.pending
    requires template[c.next].kind == Literal ==> c.at < |target| && template[c.next].value == target[c.at]
    ensures Agrees(template, target, pieces + [target[c.from..c.at]], Cursor(c.at, c.next, false, 0), goal)
  {
    var k := c.next - 1;
    GoalPiece(template, target, goal, k);
    assert goal[..k] == pieces;
    var piece := goal[k];
    forall i | 1 <= i < |piece| ensures piece[i] in piece[1..] && piece[i] == target[c.from + i] {
      assert piece[1..][i - 1] == piece[i];
    }
    assert |piece| == c.at - c.from;
    assert goal[..c.next] == goal[..k] + [goal[k]];
  }

  /** And it goes on beyond the cursor when a literal does not accept the segment there. */
  lemma PendingGoalGoesOn(template: seq<Segment>, target: Path, pieces: seq<Path>, c: Cursor, goal: seq<Path>)
    requires Sound(template, target, pieces, c) && Agrees(template, target, pieces, c, goal) && c.pending
    requires c.at < |target| && template[c.next].kind == Literal && template[c.next].value != target[c.at]
    ensures c.at - c.from + 1 <= |goal[c.next - 1]|
  {
    var k := c.next - 1;
    GoalPiece(template, target, goal, k);
    GoalPiece(template, target, goal, c.next);
    assert goal[..k] == pieces;
    var off := c.from + |goal[k]|;
    assert goal[c.next] == target[off..off + 1] == [target[off]];
  }

  /** Without a pending piece the goal's next piece starts at the cursor. */
  lemma GoalNext(template: seq<Segment>, target: Path, pieces: seq<Path>, c: Cursor, goal: seq<Path>)
    requires Sound(template, target, pieces, c) && Agrees(template, target, pieces, c, goal)
    requires !c.pending && c.next < |template|
    ensures c.at + |goal[c.next]| <= |target| && goal[c.next] == target[c.at..c.at + |goal[c.next]|]
    ensures Takes(template[c.next], goal[c.next]) && EagerAt(template, target, goal, c.next)
    ensures Flat(goal[..c.next]) == target[..c.at]
    ensures goal[..c.next + 1] == pieces + [goal[c.next]]
  {
    GoalPiece(template, target, goal, c.next);
    assert goal[..c.next] == pieces;
    assert goal[..c.next + 1] == goal[..c.next] + [goal[c.next]];
  }

  /** A goal with a segment to come for a literal or a parameter has not run out of target. */
  lemma GoalHasMore(template: seq<Segment>, target: Path, pieces: seq<Path>, c: Cursor, goal: seq<Path>)
    requires Sound(template, target, pieces, c) && Agrees(template, target, pieces, c, goal)
    requires c.next < |template| && template[c.next].kind != Greedy
    ensures c.at < |target|
  {
    GoalPiece(template, target, goal, c.next);
    assert goal[..|pieces|] == pieces;
    if c.pending { GoalPiece(template, target, goal, |pieces|); }
  }

  /** The captures after one more piece. */
  lemma CapturesGrow(args: map<string, string>, template: seq<Segment>, pieces: seq<Path>, piece: Path)
    requires |pieces| < |template|
    ensures Captures(args, template, pieces + [piece]) ==
            var before := Captures(args, template, pieces);
            var s := template[|pieces|];
            if s.kind == Literal then before else Emplaced(before, s.value, Joined(piece))
  {
    assert (pieces + [piece])[..|pieces|] == pieces;
  }

  /** What is known when the pending piece, if any, has been closed at the cursor. */
  lemma Closed(args: map<string, string>, template: seq<Segment>, target: Path, pieces: seq<Path>, c: Cursor) returns (closed: seq<Path>)
    requires Sound(template, target, pieces, c)
    ensures closed == if c.pending then pieces + [target[c.from..c.at]] else pieces
    ensures Sound(template, target, closed, Cursor(c.at, c.next, false, 0))
    ensures Captures(args, template, closed) ==
            if c.pending then Emplaced(Captures(args, template, pieces), template[c.next - 1].value, Joined(target[c.from..c.at]))
            else Captures(args, template, pieces)
  {
    closed := pieces;
    if c.pending {
      closed := pieces + [target[c.from..c.at]];
      ClosePending(template, target, pieces, c);
      CapturesGrow(args, template, pieces, target[c.from..c.at]);
    }
  }

  /** One segment taken by a literal or a parameter. */
  lemma TakeOne(args: map<string, string>, template: seq<Segment>, target: Path, pieces: seq<Path>, at: nat)
    requires Sound(template, target, pieces, Cursor(at, |pieces|, false, 0)) && |pieces| < |template| && at < |target|
    requires template[|pieces|].kind != Greedy
    requires template[|pieces|].kind == Literal ==> template[|pieces|].value == target[at]
    ensures var more := pieces + [[target[at]]];
            Sound(template, target, more, Cursor(at + 1, |pieces| + 1, false, 0)) &&
            Captures(args, template, more) ==
              (if template[|pieces|].kind == Literal then Captures(args, template, pieces)
               else Emplaced(Captures(args, template, pieces), template[|pieces|].value, target[at]))
  {
    assert target[at..at + 1] == [target[at]];
    ProgressGrows(template, target, pieces, at, at + 1);
    CapturesGrow(args, template, pieces, [target[at]]);
  }

  lemma GoalTakesOne(template: seq<Segment>, target: Path, pieces: seq<Path>, at: nat, goal: seq<Path>)
    requires Sound(template, target, pieces, Cursor(at, |pieces|, false, 0)) && |pieces| < |template| && at < |target|
    requires Agrees(template, target, pieces, Cursor(at, |pieces|, false, 0), goal)
    requires template[|pieces|].kind != Greedy
    ensures template[|pieces|].kind == Literal ==> template[|pieces|].value == target[at]
    ensures Agrees(template, target, pieces + [[target[at]]], Cursor(at + 1, |pieces| + 1, false, 0), goal)
  {
    GoalNext(template, target, pieces, Cursor(at, |pieces|, false, 0), goal);
    assert target[at..at + 1] == [target[at]];
  }

  /** A greedy parameter becomes pending. */
  lemma StartGreedy(template: seq<Segment>, target: Path, pieces: seq<Path>, at: nat)
    requires Sound(template, target, pieces, Cursor(at, |pieces|, false, 0)) && |pieces| + 1 < |template|
    requires template[|pieces|].kind == Greedy
    ensures Sound(template, target, pieces, Cursor(if at < |target| then at + 1 else at, |pieces| + 1, true, at))
  {
  }

  lemma GoalStartsGreedy(template: seq<Segment>, target: Path, pieces: seq<Path>, at: nat, goal: seq<Path>)
    requires Sound(template, target, pieces, Cursor(at, |pieces|, false, 0)) && |pieces| + 1 < |template|
    requires Agrees(template, target, pieces, Cursor(at, |pieces|, false, 0), goal)
    requires template[|pieces|].kind == Greedy
    ensures Agrees(template, target, pieces, Cursor(if at < |target| then at + 1 else at, |pieces| + 1, true, at), goal)
  {
    GoalNext(template, target, pieces, Cursor(at, |pieces|, false, 0), goal);
    assert at < |target| ==> target[..at] != target;
  }

  /** A greedy parameter at the end takes everything that is left. */
  lemma LastGreedy(args: map<string, string>, template: seq<Segment>, target: Path, pieces: seq<Path>, at: nat)
    requires Sound(template, target, pieces, Cursor(at, |pieces|, false, 0)) && |pieces| + 1 == |template|
    requires template[|pieces|].kind == Greedy
    ensures IsEager(template, target, pieces + [target[at..]])
    ensures Captures(args, template, pieces + [target[at..]]) ==
            Emplaced(Captures(args, template, pieces), template[|pieces|].value, Joined(target[at..]))
  {
    assert target[at..|target|] == target[at..];
    ProgressGrows(template, target, pieces, at, |target|);
    ProgressDone(template, target, pieces + [target[at..]]);
    CapturesGrow(args, template, pieces, target[at..]);
  }

  // ---- The loop -----------------------------------------------------------------------------------

  method FinishGreedy(ctx: Context, name: string, target: Path, from: nat, at: nat)
    requires name != "" ==> from <= at <= |target|
    modifies ctx
    ensures ctx.pathArgs ==
            if name == "" then old(ctx.pathArgs) else Emplaced(old(ctx.pathArgs), name, Joined(target[from..at]))
  {
    if name != "" { ctx.Emplace(name, Joined(target[from..at])); }
  }

  /** Where a failed match stops: the pieces taken so far fit, and the next one cannot be taken. */
  ghost predicate StuckAt(template: seq<Segment>, target: Path, pieces: seq<Path>) {
    |pieces| <= |template| &&
    ((forall i | 0 <= i < |template| :: template[i].kind != Greedy) ==>
       && |pieces| <= |target|
       && (forall i | 0 <= i < |pieces| :: pieces[i] == [target[i]] && Takes(template[i], pieces[i]))
       && (|pieces| < |template| && |pieces| < |target| ==>
             template[|pieces|].kind == Literal && template[|pieces|].value != target[|pieces|]))
  }

  /** `operator()`: true exactly when an eager substitution exists, and then the path arguments are
      the pieces it gives to the parameters. A failed match leaves behind what it had taken. */
  method Match(template: seq<Segment>, target: Path, ctx: Context) returns (matched: bool, ghost pieces: seq<Path>)
    requires ValidSegments(template)
    modifies ctx
    ensures matched <==> exists p: seq<Path> :: IsEager(template, target, p)
    ensures matched ==> IsEager(template, target, pieces)
    ensures !matched ==> StuckAt(template, target, pieces)
    ensures |pieces| <= |template| && ctx.pathArgs == Captures(old(ctx.pathArgs), template, pieces)
  {
    hide StuckAt, Progress, IsEager, Emplaced, Captures, Joined, ValidSegment, Sound, Agrees;
    ghost var args0 := ctx.pathArgs;
    ghost var possible := exists p: seq<Path> :: IsEager(template, target, p);
    ghost var goal: seq<Path> := if possible then var p: seq<Path> :| IsEager(template, target, p); p else [];
    pieces := [];
    var at: nat, next: nat, from: nat, name := 0, 0, |target|, "";
    Starting(template, target, goal, args0);
    while next < |template|
      invariant at <= |target|
      invariant |pieces| + (if name != "" then 1 else 0) == next <= |template|
      invariant Sound(template, target, pieces, Here(at, next, name, from))
      invariant name != "" ==> 0 < next && name == template[next - 1].value && from <= at
      invariant ctx.pathArgs == Captures(args0, template, pieces)
      invariant possible ==> Agrees(template, target, pieces, Here(at, next, name, from), goal)
      decreases |template| - next, |target| - at
    {
      var s := template[next];
      NameIsNotEmpty(template, next);
      ghost var c := Here(at, next, name, from);
      ghost var closed := Closed(args0, template, target, pieces, c);
      if s.kind == Greedy {
        FinishGreedy(ctx, name, target, from, at);
        if possible && name != "" { PendingGoalEnds(template, target, pieces, c, goal); }
        pieces := closed;
        from, name := at, s.value;
        next := next + 1;
        if next == |template| {
          // a greedy parameter at the end takes all that remains
          LastGreedy(args0, template, target, pieces, at);
          assert target[from..|target|] == target[at..];
          at := |target|;
          FinishGreedy(ctx, name, target, from, at);
          pieces := pieces + [target[from..]];
          return true, pieces;
        }
        StartGreedy(template, target, pieces, at);
        if possible { GoalStartsGreedy(template, target, pieces, at, goal); }
        if at < |target| { at := at + 1; }
        continue;
      }
      if at == |target| {
        if possible { GoalHasMore(template, target, pieces, c, goal); }
        break;
      }
      var value := target[at];
      if s.kind == Param || s.value == value {
        TakeStep(args0, template, target, pieces, closed, c, possible, goal);
        FinishGreedy(ctx, name, target, from, at);
        if s.kind == Param { ctx.Emplace(s.value, value); }
        name := "";
        pieces := closed + [[value]];
        at, next := at + 1, next + 1;
        continue;
      }
      if name != "" {
        if possible { PendingGoalGoesOn(template, target, pieces, c, goal); }
        PendingMoves(template, target, pieces, c, goal);
        at := at + 1;
        continue;
      }
      if possible { GoalTakesOne(template, target, closed, at, goal); }
      Stuck(template, target, pieces, at);
      return false, pieces;
    }
    ghost var done := Closed(args0, template, target, pieces, Here(at, next, name, from));
    FinishGreedy(ctx, name, target, from, at);
    matched := at == |target| && next == |template|;
    Exhausted(template, target, done, at, next);
    if next == |template| { Ending(template, target, pieces, Here(at, next, name, from), goal); }
    pieces := done;
  }

  lemma {:induction false} ProgressWithoutGreedy(template: seq<Segment>, target: Path, pieces: seq<Path>, at: nat)
    requires Progress(template, target, pieces, at) && forall i | 0 <= i < |template| :: template[i].kind != Greedy
    ensures at == |pieces| && forall i | 0 <= i < |pieces| :: pieces[i] == [target[i]]
    decreases |pieces|
  {
    if pieces != [] {
      var n := |pieces| - 1;
      assert Takes(template[n], pieces[n]);
      assert |Flat(pieces)| == |Flat(pieces[..n])| + 1;
      assert Flat(pieces[..n]) == target[..at][..at - 1] == target[..at - 1];
      forall i | 0 <= i < n ensures Takes(template[i], pieces[..n][i]) && EagerSoFar(template, target, pieces[..n], i) {
        assert Takes(template[i], pieces[i]) && EagerSoFar(template, target, pieces, i);
      }
      ProgressWithoutGreedy(template, target, pieces[..n], at - 1);
      assert pieces[n][0] == target[..at][at - 1];
    }
  }

  lemma Stuck(template: seq<Segment>, target: Path, pieces: seq<Path>, at: nat)
    requires Sound(template, target, pieces, Cursor(at, |pieces|, false, 0)) && |pieces| < |template| && at < |target|
    requires template[|pieces|].kind == Literal && template[|pieces|].value != target[at]
    ensures StuckAt(template, target, pieces)
  {
    if forall i | 0 <= i < |template| :: template[i].kind != Greedy {
      ProgressWithoutGreedy(template, target, pieces, at);
    }
  }

  lemma Exhausted(template: seq<Segment>, target: Path, pieces: seq<Path>, at: nat, next: nat)
    requires Sound(template, target, pieces, Cursor(at, next, false, 0)) && (next == |template| || at == |target|)
    ensures StuckAt(template, target, pieces)
  {
    if forall i | 0 <= i < |template| :: template[i].kind != Greedy {
      ProgressWithoutGreedy(template, target, pieces, at);
    }
  }

  /** A literal or a parameter takes the segment at the cursor; a pending piece ends there. */
  lemma TakeStep(args: map<string, string>, template: seq<Segment>, target: Path, pieces: seq<Path>, closed: seq<Path>,
                 c: Cursor, possible: bool, goal: seq<Path>)
    requires Sound(template, target, pieces, c) && c.next < |template| && c.at < |target|
    requires closed == if c.pending then pieces + [target[c.from..c.at]] else pieces
    requires Sound(template, target, closed, Cursor(c.at, c.next, false, 0))
    requires template[c.next].kind != Greedy && (template[c.next].kind == Literal ==> template[c.next].value == target[c.at])
    requires possible ==> Agrees(template, target, pieces, c, goal)
    ensures |closed| == c.next
    ensures var more := closed + [[target[c.at]]];
            var next := Cursor(c.at + 1, c.next + 1, false, 0);
            Sound(template, target, more, next) && (possible ==> Agrees(template, target, more, next, goal)) &&
            Captures(args, template, more) ==
              (if template[c.next].kind == Literal then Captures(args, template, closed)
               else Emplaced(Captures(args, template, closed), template[c.next].value, target[c.at]))
  {
    assert |closed| == c.next;
    if possible && c.pending { PendingGoalEnds(template, target, pieces, c, goal); }
    hide Progress, IsEager, Emplaced, Captures, Sound, Agrees;
    TakeOne(args, template, target, closed, c.at);
    if possible { NoPending(template, target, closed, c, goal); GoalTakesOne(template, target, closed, c.at, goal); }
  }

  lemma NoPending(template: seq<Segment>, target: Path, closed: seq<Path>, c: Cursor, goal: seq<Path>)
    requires c.pending ==> Agrees(template, target, closed, Cursor(c.at, c.next, false, 0), goal)
    requires !c.pending ==> Agrees(template, target, closed, c, goal)
    ensures Agrees(template, target, closed, Cursor(c.at, c.next, false, 0), goal)
  {
  }

  lemma NameIsNotEmpty(template: seq<Segment>, i: nat)
    requires ValidSegments(template) && i < |template|
    ensures template[i].value != ""
  {
    assert ValidSegment(template[i]);
  }

  lemma Starting(template: seq<Segment>, target: Path, goal: seq<Path>, args: map<string, string>)
    ensures Sound(template, target, [], Cursor(0, 0, false, 0)) && Captures(args, template, []) == args
    ensures IsEager(template, target, goal) ==> Agrees(template, target, [], Cursor(0, 0, false, 0), goal)
  {
  }

  /** A pending piece passes over a segment that the next literal does not accept. */
  lemma PendingMoves(template: seq<Segment>, target: Path, pieces: seq<Path>, c: Cursor, goal: seq<Path>)
    requires Sound(template, target, pieces, c) && c.pending && c.at < |target|
    requires template[c.next].kind == Literal && template[c.next].value != target[c.at]
    ensures Sound(template, target, pieces, c.(at := c.at + 1))
    ensures Agrees(template, target, pieces, c, goal) && c.at - c.from + 1 <= |goal[c.next - 1]| ==>
              Agrees(template, target, pieces, c.(at := c.at + 1), goal)
  {
  }

  /** With the template used up, the match is decided by the target. */
  lemma Ending(template: seq<Segment>, target: Path, pieces: seq<Path>, c: Cursor, goal: seq<Path>)
    requires Sound(template, target, pieces, c) && c.next == |template|
    ensures !c.pending
    ensures c.at == |target| ==> IsEager(template, target, pieces)
    ensures Agrees(template, target, pieces, c, goal) ==> c.at == |target|
  {
    if c.at == |target| { ProgressDone(template, target, pieces); }
    if Agrees(template, target, pieces, c, goal) { assert goal[..|goal|] == goal; }
  }
}
