// Request matchers: closures over a request, composed with `!`, `&&` and `||`, that are handed the
// parsed target and cookies only when some part of them asks for it.

module Operand {
  import opened Wrappers
  import opened Text
  import opened TargetMatcher

  type Args = map<string, string>
  type Cookies = map<string, string>

  /** The request header as matchers see it; `recognised` says that the method is a verb known by name. */
  datatype Request = Request(verb: string, recognised: bool, version: nat, headers: seq<(string, string)>)

  /** What a matcher answers, and the path arguments it leaves in the context. */
  datatype Outcome = Outcome(ok: bool, args: Args)

  /** The five signatures a matcher may have. */
  datatype Callable =
    | Plain(plain: (Request, Args) -> Outcome)
    | OfCookies(ofCookies: (Request, Args, Cookies) -> Outcome)
    | OfTarget(ofTarget: (Request, Args, Path) -> Outcome)
    | OfCookiesTarget(ofCookiesTarget: (Request, Args, Cookies, Path) -> Outcome)
    | OfTargetCookies(ofTargetCookies: (Request, Args, Path, Cookies) -> Outcome)

  datatype Tag =
    | MethodEq | MethodNe | TargetEq | HeaderEq | HeaderNe | HeaderExists | CookieEq | CookieNe | CookieExists
    | VersionEq | VersionNe | VersionLt | VersionLe | VersionGt | VersionGe

  datatype Meta = AnyMetadata | LeafMeta(tag: Tag) | AndMeta(l: Meta, r: Meta) | OrMeta(l: Meta, r: Meta) | NotMeta(x: Meta)

  /** A verb known by name, the verb that stands for every unknown one, or any method string. */
  datatype MethodVerb = Verb(name: string) | UnknownVerb | Named(name: string)

  datatype Data =
    | MethodData(verb: MethodVerb)
    | TargetData(text: string)
    | HeaderData(key: string, value: string)
    | CookieData(name: string, value: string)
    | VersionData(version: nat)

  /** The captured type that belongs to a tag. */
  predicate Carries(tag: Tag, data: Data) {
    match tag
    case MethodEq => data.MethodData?
    case MethodNe => data.MethodData?
    case TargetEq => data.TargetData?
    case HeaderEq => data.HeaderData?
    case HeaderNe => data.HeaderData?
    case HeaderExists => data.HeaderData?
    case CookieEq => data.CookieData?
    case CookieNe => data.CookieData?
    case CookieExists => data.CookieData?
    case VersionEq => data.VersionData?
    case VersionNe => data.VersionData?
    case VersionLt => data.VersionData?
    case VersionLe => data.VersionData?
    case VersionGt => data.VersionData?
    case VersionGe => data.VersionData?
  }

  /** The leaves of a metadata tree, left to right. */
  function Flatten(m: Meta): seq<Tag> {
    match m
    case AnyMetadata => []
    case LeafMeta(tag) => [tag]
    case AndMeta(l, r) => Flatten(l) + Flatten(r)
    case OrMeta(l, r) => Flatten(l) + Flatten(r)
    case NotMeta(x) => Flatten(x)
  }

  datatype Operand = Operand(callable: Callable, meta: Meta, captures: seq<Data>) {
    predicate WithTarget() {
      callable.OfTargetCookies? || callable.OfCookiesTarget? || callable.OfTarget?
    }

    predicate WithCookies() {
      callable.OfTargetCookies? || callable.OfCookiesTarget? || callable.OfCookies?
    }

    /** `operator()`: the callable gets what its signature asks for. */
    function Invoke(r: Request, args: Args, target: Path, cookies: Cookies): Outcome {
      match callable
      case OfTargetCookies(f) => f(r, args, target, cookies)
      case OfCookiesTarget(f) => f(r, args, cookies, target)
      case OfTarget(f) => f(r, args, target)
      case OfCookies(f) => f(r, args, cookies)
      case Plain(f) => f(r, args)
    }
  }

  const NO_TARGET: Path := []
  const NO_COOKIES: Cookies := map[]

  function Flipped(o: Outcome): Outcome {
    Outcome(!o.ok, o.args)
  }

  function NotOf(o: Operand): Operand {
    var callable :=
      if o.WithTarget() && o.WithCookies() then
        OfTargetCookies((r, a, t, c) => Flipped(o.Invoke(r, a, t, c)))
      else if o.WithTarget() then
        OfTarget((r, a, t) => Flipped(o.Invoke(r, a, t, NO_COOKIES)))
      else if o.WithCookies() then
        OfCookies((r, a, c) => Flipped(o.Invoke(r, a, NO_TARGET, c)))
      else
        Plain((r, a) => Flipped(o.Invoke(r, a, NO_TARGET, NO_COOKIES)));
    Operand(callable, NotMeta(o.meta), o.captures)
  }

  /** Both sides in order, the second one only if the first one matched. */
  function Both(x: Operand, y: Operand, r: Request, a: Args, t: Path, c: Cookies): Outcome {
    var first := x.Invoke(r, a, t, c);
    if first.ok then y.Invoke(r, first.args, t, c) else first
  }

  /** Both sides in order, the second one only if the first one did not match. */
  function Either(x: Operand, y: Operand, r: Request, a: Args, t: Path, c: Cookies): Outcome {
    var first := x.Invoke(r, a, t, c);
    if first.ok then first else y.Invoke(r, first.args, t, c)
  }

  // A side that is a raw callable is first wrapped into an operand without metadata: `Raw` below.

  function AndOf(x: Operand, y: Operand): Operand {
    var withTarget, withCookies := x.WithTarget() || y.WithTarget(), x.WithCookies() || y.WithCookies();
    var callable :=
      if withTarget && withCookies then OfTargetCookies((r, a, t, c) => Both(x, y, r, a, t, c))
      else if withTarget then OfTarget((r, a, t) => Both(x, y, r, a, t, NO_COOKIES))
      else if withCookies then OfCookies((r, a, c) => Both(x, y, r, a, NO_TARGET, c))
      else Plain((r, a) => Both(x, y, r, a, NO_TARGET, NO_COOKIES));
    Operand(callable, AndMeta(x.meta, y.meta), x.captures + y.captures)
  }

  function OrOf(x: Operand, y: Operand): Operand {
    var withTarget, withCookies := x.WithTarget() || y.WithTarget(), x.WithCookies() || y.WithCookies();
    var callable :=
      if withTarget && withCookies then OfTargetCookies((r, a, t, c) => Either(x, y, r, a, t, c))
      else if withTarget then OfTarget((r, a, t) => Either(x, y, r, a, t, NO_COOKIES))
      else if withCookies then OfCookies((r, a, c) => Either(x, y, r, a, NO_TARGET, c))
      else Plain((r, a) => Either(x, y, r, a, NO_TARGET, NO_COOKIES));
    Operand(callable, OrMeta(x.meta, y.meta), x.captures + y.captures)
  }

  // ---- Leaves ----

  datatype Relation = Eq | Ne | Lt | Le | Gt | Ge

  /** What the relational operators of the placeholders build. A target leaf holds its matching loop,
      compiled from the template text. */
  datatype Leaf =
    | Method(equal: bool, verb: MethodVerb)
    | Target(text: string, match_: (Args, Path) -> Outcome)
    | Header(equal: bool, key: string, value: string)
    | HasHeader(key: string)
    | Cookie(equal: bool, name: string, value: string)
    | HasCookie(name: string)
    | Version(relation: Relation, version: nat)

  predicate IsMethod(r: Request, verb: MethodVerb) {
    match verb
    case Verb(name) => r.verb == name
    case Named(name) => r.verb == name
    case UnknownVerb => !r.recognised
  }

  /** The first field with this name, whatever the case of its letters. */
  function FindHeader(headers: seq<(string, string)>, key: string): (value: Option<string>)
    ensures value.Some? ==> exists h <- headers :: IEquals(h.0, key) && h.1 == value.value
    ensures value.None? ==> forall h <- headers :: !IEquals(h.0, key)
  {
    if headers == [] then None
    else if IEquals(headers[0].0, key) then Some(headers[0].1)
    else FindHeader(headers[1..], key)
  }

  /** The first field of this name. */
  predicate IsFirstField(headers: seq<(string, string)>, key: string, i: nat) {
    i < |headers| && IEquals(headers[i].0, key) && forall j | 0 <= j < i :: !IEquals(headers[j].0, key)
  }

  lemma {:induction false} FirstIsFound(headers: seq<(string, string)>, key: string, i: nat)
    requires IsFirstField(headers, key, i)
    ensures FindHeader(headers, key) == Some(headers[i].1)
    decreases i
  {
    hide IEquals;
    if i > 0 {
      assert headers[1..][i - 1] == headers[i] && forall j | 0 <= j < i - 1 :: headers[1..][j] == headers[j + 1];
      FirstIsFound(headers[1..], key, i - 1);
    }
  }

  /** What the leaves that look at the version, the method and the cookies ask, through their operands. */
  lemma LeavesAsk(r: Request, args: Args, t: Path, cookies: Cookies, n: nat, name: string, value: string)
    ensures LeafOperand(Version(Eq, n)).Invoke(r, args, t, cookies) == Outcome(r.version == n, args)
    ensures LeafOperand(Version(Ne, n)).Invoke(r, args, t, cookies) == Outcome(r.version != n, args)
    ensures LeafOperand(Version(Lt, n)).Invoke(r, args, t, cookies) == Outcome(r.version < n, args)
    ensures LeafOperand(Version(Le, n)).Invoke(r, args, t, cookies) == Outcome(r.version <= n, args)
    ensures LeafOperand(Version(Gt, n)).Invoke(r, args, t, cookies) == Outcome(r.version > n, args)
    ensures LeafOperand(Version(Ge, n)).Invoke(r, args, t, cookies) == Outcome(r.version >= n, args)
    ensures LeafOperand(Method(true, Verb(name))).Invoke(r, args, t, cookies) == Outcome(r.verb == name, args)
    ensures LeafOperand(Method(false, Verb(name))).Invoke(r, args, t, cookies) == Outcome(r.verb != name, args)
    ensures LeafOperand(Method(true, UnknownVerb)).Invoke(r, args, t, cookies) == Outcome(!r.recognised, args)
    ensures LeafOperand(HasCookie(name)).Invoke(r, args, t, cookies) == Outcome(name in cookies, args)
    ensures LeafOperand(Cookie(true, name, value)).Invoke(r, args, t, cookies) ==
            Outcome(name in cookies && cookies[name] == value, args)
    ensures LeafOperand(Cookie(false, name, value)).Invoke(r, args, t, cookies) ==
            Outcome(name !in cookies || cookies[name] != value, args)
  {
  }

  /** What the header leaves ask: of the first field of that name, a missing one reading as empty. */
  lemma HeaderLeavesAsk(r: Request, args: Args, t: Path, cookies: Cookies, key: string, value: string, i: nat)
    requires IsFirstField(r.headers, key, i) || forall h <- r.headers :: !IEquals(h.0, key)
    ensures LeafOperand(HasHeader(key)).Invoke(r, args, t, cookies) == Outcome(IsFirstField(r.headers, key, i), args)
    ensures LeafOperand(Header(true, key, value)).Invoke(r, args, t, cookies) ==
            Outcome(if IsFirstField(r.headers, key, i) then r.headers[i].1 == value else value == "", args)
    ensures LeafOperand(Header(false, key, value)).Invoke(r, args, t, cookies) ==
            Outcome(if IsFirstField(r.headers, key, i) then r.headers[i].1 != value else value != "", args)
  {
    hide IEquals;
    if IsFirstField(r.headers, key, i) {
      FirstIsFound(r.headers, key, i);
      assert r.headers[i] in r.headers;
    }
  }

  /** A missing field reads as the empty string. */
  function HeaderValue(r: Request, key: string): string {
    match FindHeader(r.headers, key)
    case Some(value) => value
    case None => ""
  }

  predicate Compares(x: nat, relation: Relation, y: nat) {
    match relation
    case Eq => x == y
    case Ne => x != y
    case Lt => x < y
    case Le => x <= y
    case Gt => x > y
    case Ge => x >= y
  }

  function VersionTag(relation: Relation): Tag {
    match relation
    case Eq => VersionEq
    case Ne => VersionNe
    case Lt => VersionLt
    case Le => VersionLe
    case Gt => VersionGt
    case Ge => VersionGe
  }

  function LeafOperand(leaf: Leaf): Operand {
    match leaf
    case Method(equal, verb) =>
      Operand(Plain((r: Request, a) => Outcome(IsMethod(r, verb) == equal, a)),
              LeafMeta(if equal then MethodEq else MethodNe), [MethodData(verb)])
    case Target(text, match_) =>
      Operand(OfTarget((r, a, t) => match_(a, t)), LeafMeta(TargetEq), [TargetData(text)])
    case Header(equal, key, value) =>
      Operand(Plain((r: Request, a) => Outcome((HeaderValue(r, key) == value) == equal, a)),
              LeafMeta(if equal then HeaderEq else HeaderNe), [HeaderData(key, value)])
    case HasHeader(key) =>
      Operand(Plain((r: Request, a) => Outcome(FindHeader(r.headers, key).Some?, a)),
              LeafMeta(HeaderExists), [HeaderData(key, "")])
    case Cookie(equal, name, value) =>
      Operand(OfCookies((r, a, c: Cookies) => Outcome((name in c && c[name] == value) == equal, a)),
              LeafMeta(if equal then CookieEq else CookieNe), [CookieData(name, value)])
    case HasCookie(name) =>
      Operand(OfCookies((r, a, c: Cookies) => Outcome(name in c, a)), LeafMeta(CookieExists), [CookieData(name, "")])
    case Version(relation, version) =>
      Operand(Plain((r: Request, a) => Outcome(Compares(r.version, relation, version), a)),
              LeafMeta(VersionTag(relation)), [VersionData(version)])
  }

  // ---- Expressions ----

  /** A matcher as it is written: leaves and raw callables under the three operators. */
  datatype Expr = Raw(callable: Callable) | Of(leaf: Leaf) | Not(x: Expr) | And(l: Expr, r: Expr) | Or(l: Expr, r: Expr)

  function Compose(e: Expr): Operand {
    match e
    case Raw(callable) => Operand(callable, AnyMetadata, [])
    case Of(leaf) => LeafOperand(leaf)
    case Not(x) => NotOf(Compose(x))
    case And(l, r) => AndOf(Compose(l), Compose(r))
    case Or(l, r) => OrOf(Compose(l), Compose(r))
  }

  /** What a leaf asks of the real request, target and cookies. */
  function LeafMeaning(leaf: Leaf, r: Request, args: Args, target: Path, cookies: Cookies): Outcome {
    match leaf
    case Method(equal, verb) => Outcome(IsMethod(r, verb) == equal, args)
    case Target(_, match_) => match_(args, target)
    case Header(equal, key, value) => Outcome((HeaderValue(r, key) == value) == equal, args)
    case HasHeader(key) => Outcome(FindHeader(r.headers, key).Some?, args)
    case Cookie(equal, name, value) => Outcome((name in cookies && cookies[name] == value) == equal, args)
    case HasCookie(name) => Outcome(name in cookies, args)
    case Version(relation, version) => Outcome(Compares(r.version, relation, version), args)
  }

  /** The meaning of an expression: every part sees the real target and the real cookies, the
      operators are Boolean, and a part that is passed over leaves the context alone. */
  function Meaning(e: Expr, r: Request, args: Args, target: Path, cookies: Cookies): Outcome {
    match e
    case Raw(callable) => Operand(callable, AnyMetadata, []).Invoke(r, args, target, cookies)
    case Of(leaf) => LeafMeaning(leaf, r, args, target, cookies)
    case Not(x) =>
      var o := Meaning(x, r, args, target, cookies);
      Outcome(!o.ok, o.args)
    case And(l, y) =>
      var o := Meaning(l, r, args, target, cookies);
      if o.ok then Meaning(y, r, o.args, target, cookies) else o
    case Or(l, y) =>
      var o := Meaning(l, r, args, target, cookies);
      if o.ok then o else Meaning(y, r, o.args, target, cookies)
  }

  /** Does any part read the parsed target, or the parsed cookies? */
  predicate ReadsTarget(e: Expr) {
    match e
    case Raw(callable) => callable.OfTarget? || callable.OfCookiesTarget? || callable.OfTargetCookies?
    case Of(leaf) => leaf.Target?
    case Not(x) => ReadsTarget(x)
    case And(l, r) => ReadsTarget(l) || ReadsTarget(r)
    case Or(l, r) => ReadsTarget(l) || ReadsTarget(r)
  }

  predicate ReadsCookies(e: Expr) {
    match e
    case Raw(callable) => callable.OfCookies? || callable.OfCookiesTarget? || callable.OfTargetCookies?
    case Of(leaf) => leaf.Cookie? || leaf.HasCookie?
    case Not(x) => ReadsCookies(x)
    case And(l, r) => ReadsCookies(l) || ReadsCookies(r)
    case Or(l, r) => ReadsCookies(l) || ReadsCookies(r)
  }

  // ---- A composed operand means its expression ----

  lemma NotInvokes(o: Operand, r: Request, args: Args, target: Path, cookies: Cookies)
    ensures NotOf(o).Invoke(r, args, target, cookies) == Flipped(o.Invoke(r, args, target, cookies))
    ensures NotOf(o).WithTarget() == o.WithTarget() && NotOf(o).WithCookies() == o.WithCookies()
  {
  }

  lemma AndInvokes(x: Operand, y: Operand, r: Request, args: Args, target: Path, cookies: Cookies)
    ensures AndOf(x, y).Invoke(r, args, target, cookies) == Both(x, y, r, args, target, cookies)
    ensures AndOf(x, y).WithTarget() == (x.WithTarget() || y.WithTarget())
    ensures AndOf(x, y).WithCookies() == (x.WithCookies() || y.WithCookies())
  {
  }

  lemma OrInvokes(x: Operand, y: Operand, r: Request, args: Args, target: Path, cookies: Cookies)
    ensures OrOf(x, y).Invoke(r, args, target, cookies) == Either(x, y, r, args, target, cookies)
    ensures OrOf(x, y).WithTarget() == (x.WithTarget() || y.WithTarget())
    ensures OrOf(x, y).WithCookies() == (x.WithCookies() || y.WithCookies())
  {
  }

  /** A composed operand answers as its expression means on the real target and cookies, although its
      parts are handed empty ones whenever no part of the whole asks for them; and it asks exactly
      when some part does. */
  lemma {:induction false} ComposedMeansExpression(e: Expr, r: Request, args: Args, target: Path, cookies: Cookies)
    ensures Compose(e).Invoke(r, args, target, cookies) == Meaning(e, r, args, target, cookies)
    ensures Compose(e).WithTarget() == ReadsTarget(e) && Compose(e).WithCookies() == ReadsCookies(e)
    decreases e
  {
    match e
    case Raw(_) =>
    case Of(_) =>
    case Not(x) =>
      ComposedMeansExpression(x, r, args, target, cookies);
      NotInvokes(Compose(x), r, args, target, cookies);
    case And(l, y) =>
      ComposedMeansExpression(l, r, args, target, cookies);
      ComposedMeansExpression(y, r, Meaning(l, r, args, target, cookies).args, target, cookies);
      AndInvokes(Compose(l), Compose(y), r, args, target, cookies);
    case Or(l, y) =>
      ComposedMeansExpression(l, r, args, target, cookies);
      ComposedMeansExpression(y, r, Meaning(l, r, args, target, cookies).args, target, cookies);
      OrInvokes(Compose(l), Compose(y), r, args, target, cookies);
  }

  /** An operand that does not ask for the target, or for the cookies, answers alike for all of them:
      a session may skip the parsing. */
  lemma UnneededInputsDoNotMatter(e: Expr, r: Request, args: Args, t: Path, u: Path, c: Cookies, d: Cookies)
    requires !Compose(e).WithTarget() || t == u
    requires !Compose(e).WithCookies() || c == d
    ensures Meaning(e, r, args, t, c) == Meaning(e, r, args, u, d)
  {
    ComposedMeansExpression(e, r, args, t, c);
    ComposedMeansExpression(e, r, args, u, d);
  }

  // ---- Without short-circuiting ----

  /** The answer of every leaf and raw callable is independent of the path arguments. */
  ghost predicate IgnoresArgs(e: Expr) {
    match e
    case Raw(callable) =>
      forall r, a, b, t, c :: Meaning(Raw(callable), r, a, t, c).ok == Meaning(Raw(callable), r, b, t, c).ok
    case Of(leaf) => forall r, a, b, t, c :: LeafMeaning(leaf, r, a, t, c).ok == LeafMeaning(leaf, r, b, t, c).ok
    case Not(x) => IgnoresArgs(x)
    case And(l, r) => IgnoresArgs(l) && IgnoresArgs(r)
    case Or(l, r) => IgnoresArgs(l) && IgnoresArgs(r)
  }

  /** The formula that an expression writes, every atom decided from the same context. */
  predicate Holds(e: Expr, r: Request, args: Args, target: Path, cookies: Cookies) {
    match e
    case Raw(_) => Meaning(e, r, args, target, cookies).ok
    case Of(_) => Meaning(e, r, args, target, cookies).ok
    case Not(x) => !Holds(x, r, args, target, cookies)
    case And(l, y) => Holds(l, r, args, target, cookies) && Holds(y, r, args, target, cookies)
    case Or(l, y) => Holds(l, r, args, target, cookies) || Holds(y, r, args, target, cookies)
  }

  /** When no atom looks at the path arguments, neither does the answer, and it is the formula's. */
  lemma {:induction false} MeaningIsBoolean(e: Expr, r: Request, args: Args, before: Args, target: Path, cookies: Cookies)
    requires IgnoresArgs(e)
    ensures Meaning(e, r, before, target, cookies).ok == Holds(e, r, args, target, cookies)
    decreases e
  {
    match e
    case Raw(_) =>
    case Of(_) =>
    case Not(x) =>
      MeaningIsBoolean(x, r, args, before, target, cookies);
    case And(l, y) =>
      MeaningIsBoolean(l, r, args, before, target, cookies);
      MeaningIsBoolean(y, r, args, Meaning(l, r, before, target, cookies).args, target, cookies);
    case Or(l, y) =>
      MeaningIsBoolean(l, r, args, before, target, cookies);
      MeaningIsBoolean(y, r, args, Meaning(l, r, before, target, cookies).args, target, cookies);
  }

  // ---- Captures ----

  /** The leaves of an expression, left to right. */
  function Leaves(e: Expr): seq<Leaf> {
    match e
    case Raw(_) => []
    case Of(leaf) => [leaf]
    case Not(x) => Leaves(x)
    case And(l, r) => Leaves(l) + Leaves(r)
    case Or(l, r) => Leaves(l) + Leaves(r)
  }

  ghost predicate LinesUp(captures: seq<Data>, tags: seq<Tag>, leaves: seq<Leaf>) {
    |captures| == |tags| == |leaves| &&
    forall k :: 0 <= k < |captures| ==>
      && Carries(tags[k], captures[k])
      && LeafMeta(tags[k]) == LeafOperand(leaves[k]).meta
      && [captures[k]] == LeafOperand(leaves[k]).captures
  }

  lemma LeafLinesUp(leaf: Leaf)
    ensures LinesUp(LeafOperand(leaf).captures, Flatten(LeafOperand(leaf).meta), [leaf])
  {
  }

  lemma PairLinesUp(c: seq<Data>, t: seq<Tag>, l: seq<Leaf>, d: seq<Data>, u: seq<Tag>, m: seq<Leaf>)
    requires LinesUp(c, t, l) && LinesUp(d, u, m)
    ensures LinesUp(c + d, t + u, l + m)
  {
    hide Carries, LeafOperand;
  }

  /** The captures line up with the flattened metadata: one for each leaf, in order, of its own type
      and with its own values; a raw callable has neither. */
  lemma {:induction false} CapturesLineUp(e: Expr)
    ensures LinesUp(Compose(e).captures, Flatten(Compose(e).meta), Leaves(e))
    decreases e
  {
    hide Carries, LeafOperand;
    match e
    case Raw(_) =>
    case Of(leaf) => LeafLinesUp(leaf);
    case Not(x) => CapturesLineUp(x);
    case And(l, r) =>
      CapturesLineUp(l);
      CapturesLineUp(r);
      PairLinesUp(Compose(l).captures, Flatten(Compose(l).meta), Leaves(l), Compose(r).captures, Flatten(Compose(r).meta), Leaves(r));
    case Or(l, r) =>
      CapturesLineUp(l);
      CapturesLineUp(r);
      PairLinesUp(Compose(l).captures, Flatten(Compose(l).meta), Leaves(l), Compose(r).captures, Flatten(Compose(r).meta), Leaves(r));
  }
}
