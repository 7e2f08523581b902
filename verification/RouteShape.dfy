// Which matchers can be described as "these methods on this path", and what the description promises.

module RouteShape {
  import opened Wrappers
  import opened Text
  import opened TemplateParser
  import opened TargetMatcher
  import opened TargetMeaning
  import opened Operand

  datatype Shape = Shape(valid: bool, methodsOnly: bool, targets: nat, methods: nat)

  function ShapeOf(m: Meta): Shape {
    match m
    case LeafMeta(tag) =>
      (match tag
       case MethodEq => Shape(true, true, 0, 1)
       case TargetEq => Shape(true, false, 1, 0)
       case HeaderEq => Shape(true, false, 0, 0)
       case HeaderExists => Shape(true, false, 0, 0)
       case CookieEq => Shape(true, false, 0, 0)
       case CookieExists => Shape(true, false, 0, 0)
       case VersionEq => Shape(true, false, 0, 0)
       case VersionNe => Shape(true, false, 0, 0)
       case VersionLt => Shape(true, false, 0, 0)
       case VersionLe => Shape(true, false, 0, 0)
       case VersionGt => Shape(true, false, 0, 0)
       case VersionGe => Shape(true, false, 0, 0)
       case MethodNe => Shape(false, false, 0, 0)
       case HeaderNe => Shape(false, false, 0, 0)
       case CookieNe => Shape(false, false, 0, 0))
    case AndMeta(x, y) =>
      var l, r := ShapeOf(x), ShapeOf(y);
      Shape(l.valid && r.valid, l.methodsOnly && r.methodsOnly, l.targets + r.targets, l.methods + r.methods)
    case OrMeta(x, y) =>
      var l, r := ShapeOf(x), ShapeOf(y);
      Shape(l.valid && r.valid && l.methodsOnly && r.methodsOnly, true, 0, l.methods + r.methods)
    case NotMeta(_) => Shape(false, false, 0, 0)
    case AnyMetadata => Shape(false, false, 0, 0)
  }

  predicate Expressible(m: Meta) {
    ShapeOf(m).valid && ShapeOf(m).targets == 1 && ShapeOf(m).methods >= 1
  }

  // ---- What the shape says ----

  /** The parts of a conjunction. */
  function Conjuncts(m: Meta): seq<Meta> {
    if m.AndMeta? then Conjuncts(m.l) + Conjuncts(m.r) else [m]
  }

  /** Built from `method ==` alone. */
  predicate MethodTree(m: Meta) {
    match m
    case LeafMeta(tag) => tag == MethodEq
    case AndMeta(l, r) => MethodTree(l) && MethodTree(r)
    case OrMeta(l, r) => MethodTree(l) && MethodTree(r)
    case _ => false
  }

  /** A positive constraint, or alternatives between methods. */
  predicate Describable(m: Meta) {
    if m.LeafMeta? then !m.tag.MethodNe? && !m.tag.HeaderNe? && !m.tag.CookieNe? else m.OrMeta? && MethodTree(m)
  }

  lemma {:induction false} MethodsOnlyIsMethodTree(m: Meta)
    ensures ShapeOf(m).valid && ShapeOf(m).methodsOnly <==> MethodTree(m)
    ensures MethodTree(m) ==> ShapeOf(m).methods >= 1 && ShapeOf(m).targets == 0
    decreases m
  {
    match m
    case AndMeta(l, r) =>
      MethodsOnlyIsMethodTree(l);
      MethodsOnlyIsMethodTree(r);
    case OrMeta(l, r) =>
      MethodsOnlyIsMethodTree(l);
      MethodsOnlyIsMethodTree(r);
    case LeafMeta(_) =>
    case NotMeta(_) =>
    case AnyMetadata =>
  }

  lemma {:induction false} ShapeCountsConjuncts(m: Meta)
    ensures ShapeOf(m).valid <==> forall c <- Conjuncts(m) :: Describable(c)
    ensures ShapeOf(m).valid ==> ShapeOf(m).targets == multiset(Conjuncts(m))[LeafMeta(TargetEq)]
    ensures ShapeOf(m).valid ==> (ShapeOf(m).methods >= 1 <==> exists c <- Conjuncts(m) :: MethodTree(c))
    decreases m
  {
    if m.AndMeta? {
      ShapeCountsConjuncts(m.l);
      ShapeCountsConjuncts(m.r);
      assert Conjuncts(m) == Conjuncts(m.l) + Conjuncts(m.r);
      assert forall c :: c in Conjuncts(m) <==> c in Conjuncts(m.l) || c in Conjuncts(m.r);
    } else {
      assert Conjuncts(m) == [m];
      assert forall c :: c in Conjuncts(m) <==> c == m;
      ShapeOfConjunct(m);
    }
  }

  lemma ShapeOfConjunct(m: Meta)
    requires !m.AndMeta?
    ensures ShapeOf(m).valid <==> Describable(m)
    ensures ShapeOf(m).valid ==> ShapeOf(m).targets == (if m == LeafMeta(TargetEq) then 1 else 0)
    ensures ShapeOf(m).valid ==> (ShapeOf(m).methods >= 1 <==> MethodTree(m))
  {
    if m.OrMeta? {
      MethodsOnlyIsMethodTree(m);
      MethodsOnlyIsMethodTree(m.l);
      MethodsOnlyIsMethodTree(m.r);
    }
  }

  /** A route is expressible exactly when it is a conjunction of positive constraints and alternatives
      between methods, with one target and at least one method among them. */
  lemma ExpressibleIsConjunction(m: Meta)
    ensures Expressible(m) <==>
            && (forall c <- Conjuncts(m) :: Describable(c))
            && multiset(Conjuncts(m))[LeafMeta(TargetEq)] == 1
            && exists c <- Conjuncts(m) :: MethodTree(c)
  {
    ShapeCountsConjuncts(m);
  }

  // ---- The summary ----

  datatype RouteInput = RouteInput(name: string, value: string, existsOnly: bool)

  datatype RouteSummary = RouteSummary(template: string, methods: seq<string>, headers: seq<RouteInput>, cookies: seq<RouteInput>)

  function VerbString(verb: MethodVerb): string {
    match verb
    case Verb(name) => name
    case Named(name) => name
    case UnknownVerb => "<unknown>"
  }

  /** One leaf and its captured value, added to the summary. */
  function Visit(tag: Tag, v: Data, s: RouteSummary): RouteSummary
    requires Carries(tag, v)
  {
    match tag
    case MethodEq => s.(methods := s.methods + [VerbString(v.verb)])
    case TargetEq => s.(template := v.text)
    case HeaderEq => s.(headers := s.headers + [RouteInput(v.key, v.value, false)])
    case HeaderExists => s.(headers := s.headers + [RouteInput(v.key, "", true)])
    case CookieEq => s.(cookies := s.cookies + [RouteInput(v.name, v.value, false)])
    case CookieExists => s.(cookies := s.cookies + [RouteInput(v.name, "", true)])
    case _ => s
  }

  /** What the leaves contribute, in order. */
  function Collect<T>(leaves: seq<Leaf>, f: Leaf -> seq<T>): seq<T> {
    if leaves == [] then [] else Collect(leaves[..|leaves| - 1], f) + f(leaves[|leaves| - 1])
  }

  lemma {:induction false} CollectConcat<T>(a: seq<Leaf>, b: seq<Leaf>, f: Leaf -> seq<T>)
    ensures Collect(a + b, f) == Collect(a, f) + Collect(b, f)
    decreases |b|
  {
    if b == [] {
      assert a + b == a;
    } else {
      var n := |b| - 1;
      CollectConcat(a, b[..n], f);
      assert (a + b)[..|a + b| - 1] == a + b[..n];
    }
  }

  function MethodOf(leaf: Leaf): seq<string> {
    if leaf.Method? && leaf.equal then [VerbString(leaf.verb)] else []
  }

  function TargetOf(leaf: Leaf): seq<string> {
    if leaf.Target? then [leaf.text] else []
  }

  function HeaderOf(leaf: Leaf): seq<RouteInput> {
    match leaf
    case Header(equal, key, value) => if equal then [RouteInput(key, value, false)] else []
    case HasHeader(key) => [RouteInput(key, "", true)]
    case _ => []
  }

  function CookieOf(leaf: Leaf): seq<RouteInput> {
    match leaf
    case Cookie(equal, name, value) => if equal then [RouteInput(name, value, false)] else []
    case HasCookie(name) => [RouteInput(name, "", true)]
    case _ => []
  }

  function Methods(e: Expr): seq<string> { Collect(Leaves(e), MethodOf) }
  function Targets(e: Expr): seq<string> { Collect(Leaves(e), TargetOf) }
  function Headers(e: Expr): seq<RouteInput> { Collect(Leaves(e), HeaderOf) }
  function CookieInputs(e: Expr): seq<RouteInput> { Collect(Leaves(e), CookieOf) }

  /** Everything the leaves say about method, path, headers and cookies, in the order they are written. */
  predicate Summarizes(s: RouteSummary, e: Expr) {
    s.methods == Methods(e) && [s.template] == Targets(e) && s.headers == Headers(e) && s.cookies == CookieInputs(e)
  }

  /** The summary of a run of leaves. */
  ghost predicate Collected(s: RouteSummary, leaves: seq<Leaf>) {
    && s.methods == Collect(leaves, MethodOf)
    && s.headers == Collect(leaves, HeaderOf)
    && s.cookies == Collect(leaves, CookieOf)
    && var ts := Collect(leaves, TargetOf); ts != [] ==> s.template == ts[|ts| - 1]
  }

  /** `summarize_route`: walks the flattened leaves and the captures side by side. */
  method SummarizeRoute(o: Operand, ghost e: Expr) returns (s: RouteSummary)
    requires o == Compose(e) && Expressible(o.meta)
    ensures Summarizes(s, e)
  {
    hide *;
    CapturesLineUp(e);
    var tags := Flatten(o.meta);
    CapturesFit(o, e);
    s := RouteSummary("", [], [], []);
    NothingCollected(Leaves(e));
    for i := 0 to |tags|
      invariant Collected(s, Leaves(e)[..i])
    {
      VisitCollects(Leaves(e), i, tags[i], o.captures[i], s);
      s := Visit(tags[i], o.captures[i], s);
    }
    assert Leaves(e)[..|tags|] == Leaves(e);
    AllCollected(s, e);
  }

  lemma CapturesFit(o: Operand, e: Expr)
    requires LinesUp(o.captures, Flatten(o.meta), Leaves(e))
    ensures |o.captures| == |Flatten(o.meta)| == |Leaves(e)|
    ensures forall k :: 0 <= k < |o.captures| ==>
              && Carries(Flatten(o.meta)[k], o.captures[k])
              && LeafMeta(Flatten(o.meta)[k]) == LeafOperand(Leaves(e)[k]).meta
              && [o.captures[k]] == LeafOperand(Leaves(e)[k]).captures
  {
  }

  lemma NothingCollected(leaves: seq<Leaf>)
    ensures Collected(RouteSummary("", [], [], []), leaves[..0])
  {
  }

  lemma AllCollected(s: RouteSummary, e: Expr)
    requires Collected(s, Leaves(e)) && Expressible(Compose(e).meta)
    ensures Summarizes(s, e)
  {
    hide Collect;
    TargetsAreCounted(e);
  }

  lemma CollectNext<T>(leaves: seq<Leaf>, i: nat, f: Leaf -> seq<T>)
    requires i < |leaves|
    ensures Collect(leaves[..i + 1], f) == Collect(leaves[..i], f) + f(leaves[i])
  {
    assert leaves[..i + 1][..i] == leaves[..i];
  }

  lemma VisitCollects(leaves: seq<Leaf>, i: nat, tag: Tag, data: Data, s: RouteSummary)
    requires i < |leaves| && Collected(s, leaves[..i]) && Carries(tag, data)
    requires LeafMeta(tag) == LeafOperand(leaves[i]).meta && [data] == LeafOperand(leaves[i]).captures
    ensures Collected(Visit(tag, data, s), leaves[..i + 1])
  {
    hide Collect, Visit, LeafOperand, Carries, MethodOf, TargetOf, HeaderOf, CookieOf;
    VisitAdds(leaves[i], tag, data, s);
    CollectNext(leaves, i, MethodOf);
    CollectNext(leaves, i, TargetOf);
    CollectNext(leaves, i, HeaderOf);
    CollectNext(leaves, i, CookieOf);
  }

  lemma VisitAdds(leaf: Leaf, tag: Tag, data: Data, s: RouteSummary)
    requires Carries(tag, data) && LeafMeta(tag) == LeafOperand(leaf).meta && [data] == LeafOperand(leaf).captures
    ensures var t := Visit(tag, data, s);
            && t.methods == s.methods + MethodOf(leaf)
            && t.headers == s.headers + HeaderOf(leaf)
            && t.cookies == s.cookies + CookieOf(leaf)
            && t.template == (if TargetOf(leaf) == [] then s.template else TargetOf(leaf)[0])
            && |TargetOf(leaf)| <= 1
  {
    assert data == LeafOperand(leaf).captures[0];
  }

  /** The shape's counts are the leaves': methods in the whole tree, targets in a valid one. */
  lemma {:induction false} TargetsAreCounted(e: Expr)
    ensures ShapeOf(Compose(e).meta).valid ==>
              |Targets(e)| == ShapeOf(Compose(e).meta).targets && |Methods(e)| == ShapeOf(Compose(e).meta).methods
    decreases e
  {
    match e
    case Raw(_) =>
    case Of(leaf) =>
      CollectOne(leaf, TargetOf);
      CollectOne(leaf, MethodOf);
    case Not(_) =>
    case And(l, r) =>
      TargetsAreCounted(l);
      TargetsAreCounted(r);
      CollectConcat(Leaves(l), Leaves(r), TargetOf);
      CollectConcat(Leaves(l), Leaves(r), MethodOf);
    case Or(l, r) =>
      TargetsAreCounted(l);
      TargetsAreCounted(r);
      MethodsOnlyIsMethodTree(Compose(l).meta);
      MethodsOnlyIsMethodTree(Compose(r).meta);
      CollectConcat(Leaves(l), Leaves(r), TargetOf);
      CollectConcat(Leaves(l), Leaves(r), MethodOf);
  }

  // ---- A match obeys the summary ----

  ghost predicate PathMatches(text: string, path: Path) {
    Parse(text).Ok? && exists p: seq<Path> :: IsEager(Parse(text).value, path, p)
  }

  /** A target leaf's matching loop answers as the loop of the target placeholder does. */
  ghost predicate Implements(match_: (Args, Path) -> Outcome, text: string) {
    forall args: Args, path: Path ::
      && (match_(args, path).ok <==> PathMatches(text, path))
      && (match_(args, path).ok ==>
            exists p: seq<Path> ::
              IsEager(Parse(text).value, path, p) && match_(args, path).args == Captures(args, Parse(text).value, p))
  }

  ghost predicate Faithful(e: Expr) {
    forall leaf <- Leaves(e) :: leaf.Target? ==> Implements(leaf.match_, leaf.text)
  }

  /** The request's method is listed; every unrecognised method goes under one name. */
  predicate MethodListed(r: Request, methods: seq<string>) {
    r.verb in methods || (!r.recognised && "<unknown>" in methods)
  }

  /** A header that must exist does; one that must have a value has it, or is missing where that value
      is empty. */
  predicate HeaderObeys(r: Request, h: RouteInput) {
    var found := FindHeader(r.headers, h.name);
    if h.existsOnly then found.Some? else found == Some(h.value) || (found == None && h.value == "")
  }

  predicate CookieObeys(c: Cookies, k: RouteInput) {
    k.name in c && (k.existsOnly || c[k.name] == k.value)
  }

  ghost predicate Obeys(e: Expr, r: Request, path: Path, cookies: Cookies) {
    (Methods(e) != [] ==> MethodListed(r, Methods(e))) && ObeysRest(e, r, path, cookies)
  }

  /** Everything but the method. */
  ghost predicate ObeysRest(e: Expr, r: Request, path: Path, cookies: Cookies) {
    && (forall t <- Targets(e) :: PathMatches(t, path))
    && (forall h <- Headers(e) :: HeaderObeys(r, h))
    && (forall k <- CookieInputs(e) :: CookieObeys(cookies, k))
    && (forall leaf <- Leaves(e) :: leaf.Version? ==> Compares(r.version, leaf.relation, leaf.version))
  }

  predicate Valid(e: Expr) { ShapeOf(Compose(e).meta).valid }

  lemma CollectOne<T>(leaf: Leaf, f: Leaf -> seq<T>)
    ensures Collect([leaf], f) == f(leaf)
  {
    assert [leaf][..0] == [];
    assert Collect([leaf][..0], f) == [];
  }

  lemma LeafObeys(leaf: Leaf, r: Request, args: Args, path: Path, cookies: Cookies)
    requires Valid(Of(leaf)) && Faithful(Of(leaf))
    ensures LeafMeaning(leaf, r, args, path, cookies).ok ==> Obeys(Of(leaf), r, path, cookies)
    ensures "<unknown>" !in Methods(Of(leaf)) && Obeys(Of(leaf), r, path, cookies) ==> LeafMeaning(leaf, r, args, path, cookies).ok
    ensures !leaf.Target? ==> LeafMeaning(leaf, r, args, path, cookies).args == args
  {
    CollectOne(leaf, MethodOf);
    CollectOne(leaf, TargetOf);
    CollectOne(leaf, HeaderOf);
    CollectOne(leaf, CookieOf);
    assert leaf in Leaves(Of(leaf));
    hide Collect, Implements, PathMatches;
    if leaf.Target? {
      assert Targets(Of(leaf)) == [leaf.text];
    } else {
      NonTargetLeafObeys(leaf, r, args, path, cookies);
    }
  }

  lemma NonTargetLeafObeys(leaf: Leaf, r: Request, args: Args, path: Path, cookies: Cookies)
    requires Valid(Of(leaf)) && !leaf.Target?
    requires Methods(Of(leaf)) == MethodOf(leaf) && Targets(Of(leaf)) == TargetOf(leaf)
    requires Headers(Of(leaf)) == HeaderOf(leaf) && CookieInputs(Of(leaf)) == CookieOf(leaf)
    ensures LeafMeaning(leaf, r, args, path, cookies).ok ==> Obeys(Of(leaf), r, path, cookies)
    ensures "<unknown>" !in Methods(Of(leaf)) && Obeys(Of(leaf), r, path, cookies) ==> LeafMeaning(leaf, r, args, path, cookies).ok
    ensures LeafMeaning(leaf, r, args, path, cookies).args == args
  {
    hide Collect, FindHeader;
    assert leaf in Leaves(Of(leaf));
    assert leaf.Method? ==> Methods(Of(leaf)) == [VerbString(leaf.verb)];
    assert Headers(Of(leaf)) != [] ==> Headers(Of(leaf))[0] in Headers(Of(leaf));
    assert CookieInputs(Of(leaf)) != [] ==> CookieInputs(Of(leaf))[0] in CookieInputs(Of(leaf));
    assert leaf.Header? ==> Headers(Of(leaf)) == [RouteInput(leaf.key, leaf.value, false)];
    assert leaf.HasHeader? ==> Headers(Of(leaf)) == [RouteInput(leaf.key, "", true)];
    assert leaf.Cookie? ==> CookieInputs(Of(leaf)) == [RouteInput(leaf.name, leaf.value, false)];
    assert leaf.HasCookie? ==> CookieInputs(Of(leaf)) == [RouteInput(leaf.name, "", true)];
  }

  /** Two sides of a conjunction obey together what each obeys. */
  lemma BothObey(l: Expr, y: Expr, r: Request, path: Path, cookies: Cookies)
    ensures Methods(And(l, y)) == Methods(l) + Methods(y) && Targets(And(l, y)) == Targets(l) + Targets(y)
    ensures Obeys(l, r, path, cookies) && Obeys(y, r, path, cookies) ==> Obeys(And(l, y), r, path, cookies)
    ensures Obeys(And(l, y), r, path, cookies) && (Methods(l) == [] || Methods(y) == []) ==>
              Obeys(l, r, path, cookies) && Obeys(y, r, path, cookies)
  {
    CollectConcat(Leaves(l), Leaves(y), MethodOf);
    CollectConcat(Leaves(l), Leaves(y), TargetOf);
    CollectConcat(Leaves(l), Leaves(y), HeaderOf);
    CollectConcat(Leaves(l), Leaves(y), CookieOf);
    hide PathMatches, HeaderObeys, CookieObeys, Compares, Collect;
    assert Methods(l) == [] ==> Methods(And(l, y)) == Methods(y);
    assert Methods(y) == [] ==> Methods(And(l, y)) == Methods(l);
  }

  /** A matcher over methods alone: a match means a listed method, and nothing is captured. */
  lemma {:induction false} MethodTreeObeys(e: Expr, r: Request, args: Args, path: Path, cookies: Cookies)
    requires MethodTree(Compose(e).meta)
    ensures Headers(e) == [] && CookieInputs(e) == [] && Targets(e) == [] && Methods(e) != []
    ensures forall leaf <- Leaves(e) :: leaf.Method? && leaf.equal
    ensures Meaning(e, r, args, path, cookies).args == args
    ensures Meaning(e, r, args, path, cookies).ok ==> MethodListed(r, Methods(e))
    decreases e
  {
    match e
    case Of(leaf) =>
      CollectOne(leaf, MethodOf);
      CollectOne(leaf, TargetOf);
      CollectOne(leaf, HeaderOf);
      CollectOne(leaf, CookieOf);
    case And(l, y) =>
      MethodTreeObeys(l, r, args, path, cookies);
      MethodTreeObeys(y, r, args, path, cookies);
      MethodTreesJoin(l, y);
    case Or(l, y) =>
      MethodTreeObeys(l, r, args, path, cookies);
      MethodTreeObeys(y, r, args, path, cookies);
      MethodTreesJoin(l, y);
    case Not(_) =>
    case Raw(_) =>
  }

  lemma MethodTreesJoin(l: Expr, y: Expr)
    ensures Collect(Leaves(l) + Leaves(y), MethodOf) == Methods(l) + Methods(y)
    ensures Collect(Leaves(l) + Leaves(y), TargetOf) == Targets(l) + Targets(y)
    ensures Collect(Leaves(l) + Leaves(y), HeaderOf) == Headers(l) + Headers(y)
    ensures Collect(Leaves(l) + Leaves(y), CookieOf) == CookieInputs(l) + CookieInputs(y)
  {
    CollectConcat(Leaves(l), Leaves(y), MethodOf);
    CollectConcat(Leaves(l), Leaves(y), TargetOf);
    CollectConcat(Leaves(l), Leaves(y), HeaderOf);
    CollectConcat(Leaves(l), Leaves(y), CookieOf);
  }

  lemma {:induction false} MatchObeys(e: Expr, r: Request, args: Args, path: Path, cookies: Cookies)
    requires Valid(e) && Faithful(e) && Meaning(e, r, args, path, cookies).ok
    ensures Obeys(e, r, path, cookies)
    decreases e
  {
    match e
    case Of(leaf) => LeafObeys(leaf, r, args, path, cookies);
    case And(l, y) =>
      MatchObeys(l, r, args, path, cookies);
      MatchObeys(y, r, Meaning(l, r, args, path, cookies).args, path, cookies);
      BothObey(l, y, r, path, cookies);
    case Or(_, _) =>
      MethodsOnlyIsMethodTree(Compose(e).meta);
      MethodTreeObeys(e, r, args, path, cookies);
    case Not(_) =>
    case Raw(_) =>
  }

  /** The arguments of a path: the pieces an eager match gives to the template's parameters. */
  ghost predicate Captured(text: string, path: Path, args: Args, after: Args) {
    Parse(text).Ok? &&
    exists p: seq<Path> :: IsEager(Parse(text).value, path, p) && after == Captures(args, Parse(text).value, p)
  }

  lemma LeafCaptures(leaf: Leaf, r: Request, args: Args, path: Path, cookies: Cookies)
    requires Faithful(Of(leaf)) && LeafMeaning(leaf, r, args, path, cookies).ok
    ensures Targets(Of(leaf)) == TargetOf(leaf)
    ensures if leaf.Target? then Captured(leaf.text, path, args, LeafMeaning(leaf, r, args, path, cookies).args)
            else LeafMeaning(leaf, r, args, path, cookies).args == args
  {
    CollectOne(leaf, TargetOf);
    if leaf.Target? {
      assert leaf in Leaves(Of(leaf));
      assert Implements(leaf.match_, leaf.text);
      assert leaf.match_(args, path).ok;
    }
  }

  /** A matching conjunction captures the pieces of its one target and nothing else. */
  lemma {:induction false} MatchCaptures(e: Expr, r: Request, args: Args, path: Path, cookies: Cookies)
    requires Valid(e) && Faithful(e) && Meaning(e, r, args, path, cookies).ok
    ensures Targets(e) == [] ==> Meaning(e, r, args, path, cookies).args == args
    ensures |Targets(e)| == 1 ==>
              Captured(Targets(e)[0], path, args, Meaning(e, r, args, path, cookies).args)
    decreases e
  {
    hide Captured, Implements, Collect;
    match e
    case Of(leaf) => LeafCaptures(leaf, r, args, path, cookies);
    case And(l, y) =>
      MatchCaptures(l, r, args, path, cookies);
      MatchCaptures(y, r, Meaning(l, r, args, path, cookies).args, path, cookies);
      CollectConcat(Leaves(l), Leaves(y), TargetOf);
      assert Targets(e) == Targets(l) + Targets(y);
    case Or(_, _) =>
      MethodsOnlyIsMethodTree(Compose(e).meta);
      MethodTreeObeys(e, r, args, path, cookies);
    case Not(_) =>
    case Raw(_) =>
  }

  /** Whatever an expressible route matches is one of its summary's methods on its summary's path, with
      the headers and cookies the summary asks for; the path arguments are those of the path. */
  lemma MatchObeysSummary(e: Expr, s: RouteSummary, r: Request, args: Args, path: Path, cookies: Cookies)
    requires Expressible(Compose(e).meta) && Faithful(e) && Summarizes(s, e)
    requires Compose(e).Invoke(r, args, path, cookies).ok
    ensures MethodListed(r, s.methods) && PathMatches(s.template, path)
    ensures forall h <- s.headers :: HeaderObeys(r, h)
    ensures forall k <- s.cookies :: CookieObeys(cookies, k)
    ensures Captured(s.template, path, args, Compose(e).Invoke(r, args, path, cookies).args)
  {
    ComposedMeansExpression(e, r, args, path, cookies);
    MatchObeys(e, r, args, path, cookies);
    MatchCaptures(e, r, args, path, cookies);
    TargetsAreCounted(e);
    assert s.template == Targets(e)[0];
  }

  // ---- When the summary is the whole story ----

  /** Alternatives between methods, without conjunctions among them. */
  predicate Choice(m: Meta) {
    match m
    case LeafMeta(tag) => tag == MethodEq
    case OrMeta(l, r) => Choice(l) && Choice(r)
    case _ => false
  }

  /** How many conjuncts constrain the method, when each is a plain choice. */
  function MethodConjuncts(m: Meta): nat {
    match m
    case LeafMeta(tag) => if tag == MethodEq then 1 else 0
    case AndMeta(l, r) => MethodConjuncts(l) + MethodConjuncts(r)
    case OrMeta(l, r) => if Choice(m) then 1 else 2
    case _ => 0
  }

  lemma {:induction false} ChoiceMatchesListed(e: Expr, r: Request, args: Args, path: Path, cookies: Cookies)
    requires Choice(Compose(e).meta) && "<unknown>" !in Methods(e)
    ensures Meaning(e, r, args, path, cookies) == Outcome(MethodListed(r, Methods(e)), args)
    decreases e
  {
    match e
    case Of(leaf) => CollectOne(leaf, MethodOf);
    case Or(l, y) =>
      MethodTreesJoin(l, y);
      ChoiceMatchesListed(l, r, args, path, cookies);
      ChoiceMatchesListed(y, r, args, path, cookies);
    case And(_, _) =>
    case Not(_) =>
    case Raw(_) =>
  }

  lemma {:induction false} ChoiceIsMethodTree(m: Meta)
    requires Choice(m)
    ensures MethodTree(m)
    decreases m
  {
    if m.OrMeta? {
      ChoiceIsMethodTree(m.l);
      ChoiceIsMethodTree(m.r);
    }
  }

  lemma {:induction false} NoMethodConjuncts(e: Expr)
    requires Valid(e) && MethodConjuncts(Compose(e).meta) == 0
    ensures Methods(e) == []
    decreases e
  {
    match e
    case Of(leaf) => CollectOne(leaf, MethodOf);
    case And(l, y) =>
      NoMethodConjuncts(l);
      NoMethodConjuncts(y);
      MethodTreesJoin(l, y);
    case Or(_, _) =>
    case Not(_) =>
    case Raw(_) =>
  }

  /** With at most one conjunct about the method, obeying is matching. */
  lemma {:induction false} ObeyingMatches(e: Expr, r: Request, args: Args, path: Path, cookies: Cookies)
    requires Valid(e) && Faithful(e) && MethodConjuncts(Compose(e).meta) <= 1 && "<unknown>" !in Methods(e)
    requires Obeys(e, r, path, cookies)
    ensures Meaning(e, r, args, path, cookies).ok
    decreases e
  {
    match e
    case Of(leaf) => LeafObeys(leaf, r, args, path, cookies);
    case And(l, y) =>
      if MethodConjuncts(Compose(l).meta) == 0 { NoMethodConjuncts(l); } else { NoMethodConjuncts(y); }
      BothObey(l, y, r, path, cookies);
      ObeyingMatches(l, r, args, path, cookies);
      ObeyingMatches(y, r, Meaning(l, r, args, path, cookies).args, path, cookies);
    case Or(_, _) =>
      ChoiceIsMethodTree(Compose(e).meta);
      MethodTreeObeys(e, r, args, path, cookies);
      ChoiceMatchesListed(e, r, args, path, cookies);
    case Not(_) =>
    case Raw(_) =>
  }

  /** A route with one conjunct about the method matches exactly what its summary and its version
      constraints allow. */
  lemma SummaryIsExact(e: Expr, r: Request, args: Args, path: Path, cookies: Cookies)
    requires Expressible(Compose(e).meta) && Faithful(e)
    requires MethodConjuncts(Compose(e).meta) == 1 && "<unknown>" !in Methods(e)
    ensures Compose(e).Invoke(r, args, path, cookies).ok <==> Obeys(e, r, path, cookies)
  {
    ComposedMeansExpression(e, r, args, path, cookies);
    if Obeys(e, r, path, cookies) { ObeyingMatches(e, r, args, path, cookies); }
    if Meaning(e, r, args, path, cookies).ok { MatchObeys(e, r, args, path, cookies); }
  }

  /** With two, the summary lists methods that no request is served under: GET and POST at once is
      expressible, its summary says both, and nothing matches. */
  lemma TwoMethodConjuncts(text: string, match_: (Args, Path) -> Outcome, r: Request, args: Args, path: Path, cookies: Cookies)
    ensures var e := And(And(Of(Method(true, Verb("GET"))), Of(Method(true, Verb("POST")))), Of(Target(text, match_)));
            Expressible(Compose(e).meta) && Methods(e) == ["GET", "POST"] && !Compose(e).Invoke(r, args, path, cookies).ok
  {
    var get, post := Of(Method(true, Verb("GET"))), Of(Method(true, Verb("POST")));
    var target := Of(Target(text, match_));
    var e := And(And(get, post), target);
    ComposedMeansExpression(e, r, args, path, cookies);
    assert !Meaning(And(get, post), r, args, path, cookies).ok;
    assert Compose(get).meta == Compose(post).meta == LeafMeta(MethodEq) && Compose(target).meta == LeafMeta(TargetEq);
    assert Compose(e).meta == AndMeta(AndMeta(LeafMeta(MethodEq), LeafMeta(MethodEq)), LeafMeta(TargetEq));
    hide LeafOperand, AndOf, FindHeader, LeafMeaning;
    CollectOne(get.leaf, MethodOf);
    CollectOne(post.leaf, MethodOf);
    CollectOne(target.leaf, MethodOf);
    MethodTreesJoin(get, post);
    MethodTreesJoin(And(get, post), target);
  }

  // ---- Exactly when the summary is the whole story ----

  /** The conjuncts that constrain the method. */
  function MethodParts(e: Expr): seq<Expr> {
    if e.And? then MethodParts(e.l) + MethodParts(e.r)
    else if MethodTree(Compose(e).meta) then [e] else []
  }

  /** What a matcher over methods alone says of a request's method. */
  predicate Accepts(part: Expr, r: Request) {
    match part
    case Of(leaf) => leaf.Method? && IsMethod(r, leaf.verb) == leaf.equal
    case And(x, y) => Accepts(x, r) && Accepts(y, r)
    case Or(x, y) => Accepts(x, r) || Accepts(y, r)
    case Not(x) => !Accepts(x, r)
    case Raw(_) => false
  }

  /** Every listed method is accepted by every conjunct about the method. */
  ghost predicate MethodsAgree(e: Expr) {
    forall r: Request :: MethodListed(r, Methods(e)) ==> AcceptedByAll(e, r)
  }

  ghost predicate AcceptedByAll(e: Expr, r: Request) {
    forall part <- MethodParts(e) :: Accepts(part, r)
  }

  lemma {:induction false} PartMeaning(part: Expr, r: Request, args: Args, path: Path, cookies: Cookies)
    requires MethodTree(Compose(part).meta)
    ensures Meaning(part, r, args, path, cookies) == Outcome(Accepts(part, r), args)
    decreases part
  {
    match part
    case And(x, y) =>
      PartMeaning(x, r, args, path, cookies);
      PartMeaning(y, r, args, path, cookies);
    case Or(x, y) =>
      PartMeaning(x, r, args, path, cookies);
      PartMeaning(y, r, args, path, cookies);
    case Of(_) =>
    case Not(_) =>
    case Raw(_) =>
  }

  lemma RestOfBoth(l: Expr, y: Expr, r: Request, path: Path, cookies: Cookies)
    ensures ObeysRest(And(l, y), r, path, cookies) <==> ObeysRest(l, r, path, cookies) && ObeysRest(y, r, path, cookies)
  {
    MethodTreesJoin(l, y);
    hide PathMatches, HeaderObeys, CookieObeys, Compares, Collect;
  }

  lemma LeafMeans(leaf: Leaf, r: Request, args: Args, path: Path, cookies: Cookies)
    requires Valid(Of(leaf)) && Faithful(Of(leaf))
    ensures LeafMeaning(leaf, r, args, path, cookies).ok <==>
            ObeysRest(Of(leaf), r, path, cookies) && AcceptedByAll(Of(leaf), r)
  {
    CollectOne(leaf, MethodOf);
    LeafObeys(leaf, r, args, path, cookies);
    if leaf.Method? {
      MethodTreeObeys(Of(leaf), r, args, path, cookies);
      assert MethodParts(Of(leaf)) == [Of(leaf)];
      assert Of(leaf) in MethodParts(Of(leaf));
    } else {
      assert MethodParts(Of(leaf)) == [];
    }
  }

  /** A valid matcher matches exactly what obeys everything but the method and is accepted by every
      conjunct about the method. */
  lemma {:induction false} ValidMeans(e: Expr, r: Request, args: Args, path: Path, cookies: Cookies)
    requires Valid(e) && Faithful(e)
    ensures Meaning(e, r, args, path, cookies).ok <==> ObeysRest(e, r, path, cookies) && AcceptedByAll(e, r)
    decreases e
  {
    match e
    case Of(leaf) => LeafMeans(leaf, r, args, path, cookies);
    case And(l, y) =>
      hide ObeysRest, AcceptedByAll, MethodParts;
      ValidMeans(l, r, args, path, cookies);
      ValidMeans(y, r, Meaning(l, r, args, path, cookies).args, path, cookies);
      RestOfBoth(l, y, r, path, cookies);
    case Or(_, _) =>
      MethodsOnlyIsMethodTree(Compose(e).meta);
      MethodTreeObeys(e, r, args, path, cookies);
      PartMeaning(e, r, args, path, cookies);
      assert MethodParts(e) == [e] && e in MethodParts(e);
    case Not(_) =>
    case Raw(_) =>
  }

  lemma {:induction false} AcceptsLooksAtMethod(part: Expr, r: Request, s: Request)
    requires s.verb == r.verb && s.recognised == r.recognised
    ensures Accepts(part, r) == Accepts(part, s)
    decreases part
  {
    match part
    case And(x, y) =>
      AcceptsLooksAtMethod(x, r, s);
      AcceptsLooksAtMethod(y, r, s);
    case Or(x, y) =>
      AcceptsLooksAtMethod(x, r, s);
      AcceptsLooksAtMethod(y, r, s);
    case Not(x) => AcceptsLooksAtMethod(x, r, s);
    case Of(_) =>
    case Raw(_) =>
  }

  ghost predicate RestIsPossible(e: Expr) {
    exists r: Request, path: Path, cookies: Cookies :: ObeysRest(e, r, path, cookies)
  }

  ghost predicate MatchesWhatItSummarizes(e: Expr) {
    forall r: Request, args: Args, path: Path, cookies: Cookies ::
      Compose(e).Invoke(r, args, path, cookies).ok <==> Obeys(e, r, path, cookies)
  }

  /** An expressible route matches exactly what its summary and its version constraints allow, for every
      request, if and only if its conjuncts about the method agree on every listed method (or its other
      constraints contradict each other, so that it matches and allows nothing). */
  lemma SummaryIsExactExactly(e: Expr)
    requires Expressible(Compose(e).meta) && Faithful(e)
    ensures MatchesWhatItSummarizes(e) <==> MethodsAgree(e) || !RestIsPossible(e)
  {
    TargetsAreCounted(e);
    hide ObeysRest, AcceptedByAll;
    forall r: Request, args: Args, path: Path, cookies: Cookies
      ensures Compose(e).Invoke(r, args, path, cookies).ok <==> ObeysRest(e, r, path, cookies) && AcceptedByAll(e, r)
      ensures Compose(e).Invoke(r, args, path, cookies).ok ==> Obeys(e, r, path, cookies)
    {
      ComposedMeansExpression(e, r, args, path, cookies);
      ValidMeans(e, r, args, path, cookies);
      if Meaning(e, r, args, path, cookies).ok { MatchObeys(e, r, args, path, cookies); }
    }
    if !MethodsAgree(e) && RestIsPossible(e) {
      var bad: Request :| MethodListed(bad, Methods(e)) && !AcceptedByAll(e, bad);
      var r: Request, path: Path, cookies: Cookies :| ObeysRest(e, r, path, cookies);
      ObeysWithoutMatch(e, bad, r, path, cookies);
    }
  }

  /** A listed method that some conjunct refuses, on a request that obeys everything else. */
  lemma ObeysWithoutMatch(e: Expr, bad: Request, r: Request, path: Path, cookies: Cookies)
    requires Expressible(Compose(e).meta) && Faithful(e)
    requires MethodListed(bad, Methods(e)) && !AcceptedByAll(e, bad) && ObeysRest(e, r, path, cookies)
    ensures var s := r.(verb := bad.verb, recognised := bad.recognised);
            Obeys(e, s, path, cookies) && !Compose(e).Invoke(s, map[], path, cookies).ok
  {
    var s := r.(verb := bad.verb, recognised := bad.recognised);
    var part :| part in MethodParts(e) && !Accepts(part, bad);
    AcceptsLooksAtMethod(part, bad, s);
    ComposedMeansExpression(e, s, map[], path, cookies);
    ValidMeans(e, s, map[], path, cookies);
  }

  lemma {:induction false} AcceptsByName(part: Expr, r: Request, s: Request)
    requires "<unknown>" !in Methods(part) && r.verb == s.verb && MethodTree(Compose(part).meta)
    ensures Accepts(part, r) == Accepts(part, s)
    decreases part
  {
    match part
    case Of(leaf) =>
      CollectOne(leaf, MethodOf);
      assert VerbString(leaf.verb) in Methods(part);
    case And(x, y) =>
      MethodTreesJoin(x, y);
      AcceptsByName(x, r, s);
      AcceptsByName(y, r, s);
    case Or(x, y) =>
      MethodTreesJoin(x, y);
      AcceptsByName(x, r, s);
      AcceptsByName(y, r, s);
    case Not(_) =>
    case Raw(_) =>
  }

  lemma {:induction false} PartsAreMethodTrees(e: Expr)
    ensures forall part <- MethodParts(e) :: MethodTree(Compose(part).meta) && forall m <- Methods(part) :: m in Methods(e)
    decreases e
  {
    if e.And? {
      PartsAreMethodTrees(e.l);
      PartsAreMethodTrees(e.r);
      MethodTreesJoin(e.l, e.r);
    }
  }

  /** The agreement can be checked on the listed methods alone, one by one, unless the unknown verb is one
      of them. */
  lemma AgreementIsCheckable(e: Expr)
    requires "<unknown>" !in Methods(e)
    ensures MethodsAgree(e) <==>
            forall v <- Methods(e) :: AcceptedByAll(e, Request(v, true, 11, []))
  {
    PartsAreMethodTrees(e);
    forall r: Request
      ensures AcceptedByAll(e, r) == AcceptedByAll(e, Request(r.verb, true, 11, []))
    {
      forall part <- MethodParts(e) ensures Accepts(part, r) == Accepts(part, Request(r.verb, true, 11, [])) {
        AcceptsByName(part, r, Request(r.verb, true, 11, []));
      }
    }
    hide AcceptedByAll;
    assert forall v <- Methods(e) :: MethodListed(Request(v, true, 11, []), Methods(e));
  }

  // ---- A required header ----

  /** A matcher with `header(key) == value` matches only requests that have the field exactly when the value
      is not empty: a missing field reads as the empty string. */
  lemma RequiredHeaderIsPresentExactly(key: string, value: string)
    ensures (forall r: Request, a: Args, t: Path, c: Cookies ::
               LeafMeaning(Header(true, key, value), r, a, t, c).ok ==> FindHeader(r.headers, key).Some?)
            <==> value != ""
  {
    if value == "" {
      var bare := Request("GET", true, 11, []);
      assert LeafMeaning(Header(true, key, value), bare, map[], [], map[]).ok && FindHeader(bare.headers, key).None?;
    }
  }

  /** A route whose summary requires a field and which matches a request without any. */
  lemma RequiredHeaderCanBeMissing(text: string, match_: (Args, Path) -> Outcome, args: Args, path: Path)
    requires match_(args, path).ok
    ensures var e := And(And(Of(Method(true, Verb("GET"))), Of(Header(true, "X-Mode", ""))), Of(Target(text, match_)));
            var bare := Request("GET", true, 11, []);
            && Expressible(Compose(e).meta) && RouteInput("X-Mode", "", false) in Headers(e)
            && Compose(e).Invoke(bare, args, path, map[]).ok && FindHeader(bare.headers, "X-Mode").None?
  {
    var get, mode, target := Of(Method(true, Verb("GET"))), Of(Header(true, "X-Mode", "")), Of(Target(text, match_));
    var e := And(And(get, mode), target);
    var bare := Request("GET", true, 11, []);
    ComposedMeansExpression(e, bare, args, path, map[]);
    MethodTreesJoin(get, mode);
    MethodTreesJoin(And(get, mode), target);
    CollectOne(mode.leaf, HeaderOf);
    assert RouteInput("X-Mode", "", false) in Headers(mode);
    assert Meaning(And(get, mode), bare, args, path, map[]) == Outcome(true, args);
    assert Compose(e).meta == AndMeta(AndMeta(LeafMeta(MethodEq), LeafMeta(HeaderEq)), LeafMeta(TargetEq));
  }

  // ---- The hypotheses hold of real matchers ----

  /** What matching a template does to the arguments, as one function: a target has one eager substitution at
      most. */
  ghost function Compiled(text: string): (Args, Path) -> Outcome {
    (args: Args, path: Path) => CompiledOutcome(text, args, path)
  }

  ghost function CompiledOutcome(text: string, args: Args, path: Path): Outcome {
    if PathMatches(text, path) then
      var p: seq<Path> :| IsEager(Parse(text).value, path, p);
      Outcome(true, Captures(args, Parse(text).value, p))
    else Outcome(false, args)
  }

  /** There is a faithful leaf for every template text. */
  lemma CompiledImplements(text: string)
    ensures Implements(Compiled(text), text)
  {
  }

  /** And the matching loop is it: wherever it matches it leaves the very same arguments. */
  method RunTarget(text: string, args: Args, path: Path) returns (r: Option<Outcome>)
    ensures r.None? <==> Parse(text).Err?
    ensures r.Some? ==> (r.value.ok <==> PathMatches(text, path))
    ensures r.Some? && r.value.ok ==> r.value == Compiled(text)(args, path)
  {
    var template := ParseTemplate(text);
    if template.Err? { return None; }
    AcceptedAreValid(text);
    var context := new Context();
    context.pathArgs := args;
    ghost var pieces;
    var matched;
    matched, pieces := Match(template.value, path, context);
    if matched {
      forall p: seq<Path> | IsEager(template.value, path, p) ensures p == pieces {
        EagerIsUnique(template.value, path, p, pieces);
      }
    }
    r := Some(Outcome(matched, context.pathArgs));
  }

  lemma AcceptedAreValid(text: string)
    ensures Parse(text).Ok? ==> ValidSegments(Parse(text).value)
  {
    if Parse(text).Ok? { ParsesExactlyPrinted(text, Parse(text).value); }
  }

  predicate NoRaw(e: Expr) {
    match e
    case Raw(_) => false
    case Of(_) => true
    case Not(x) => NoRaw(x)
    case And(l, r) => NoRaw(l) && NoRaw(r)
    case Or(l, r) => NoRaw(l) && NoRaw(r)
  }

  /** The library's own leaves never look at the path arguments. */
  lemma {:induction false} LibraryLeavesIgnoreArgs(e: Expr)
    requires Faithful(e) && NoRaw(e)
    ensures IgnoresArgs(e)
    decreases e
  {
    match e
    case Raw(_) =>
    case Of(leaf) =>
      if leaf.Target? {
        assert leaf in Leaves(e);
        assert Implements(leaf.match_, leaf.text);
      }
    case Not(x) => LibraryLeavesIgnoreArgs(x);
    case And(l, r) =>
      FaithfulParts(l, r);
      LibraryLeavesIgnoreArgs(l);
      LibraryLeavesIgnoreArgs(r);
    case Or(l, r) =>
      FaithfulParts(l, r);
      LibraryLeavesIgnoreArgs(l);
      LibraryLeavesIgnoreArgs(r);
  }

  lemma FaithfulParts(l: Expr, r: Expr)
    requires forall leaf <- Leaves(l) + Leaves(r) :: leaf.Target? ==> Implements(leaf.match_, leaf.text)
    ensures Faithful(l) && Faithful(r)
  {
    hide Implements;
    assert forall leaf <- Leaves(l) :: leaf in Leaves(l) + Leaves(r);
    assert forall leaf <- Leaves(r) :: leaf in Leaves(l) + Leaves(r);
  }

  /** So a faithful expression without raw callables is answered as the Boolean formula it writes. */
  lemma FaithfulIsBoolean(e: Expr, r: Request, args: Args, path: Path, cookies: Cookies)
    requires Faithful(e) && NoRaw(e)
    ensures Compose(e).Invoke(r, args, path, cookies).ok == Holds(e, r, args, path, cookies)
  {
    LibraryLeavesIgnoreArgs(e);
    ComposedMeansExpression(e, r, args, path, cookies);
    MeaningIsBoolean(e, r, args, args, path, cookies);
  }
}
