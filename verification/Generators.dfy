/** Nested generators: `chunked_response`, whose body may also set metadata, and `async_generator`,
    the same machine without metadata. A body is a tree of yields. */
module Generators {
  import opened Wrappers

  type Value = string
  type Header = (string, string)

  datatype Exn = LateMetadata | Thrown(code: int)

  /** A generator body from a suspension point on. */
  datatype Body =
    | Return
    | Throw(e: Exn)
    | Emit(value: Value, rest: Body)
    | Splice(inner: Body, rest: Body)       // co_yield of another generator
    | SetStatus(status: int, rest: Body)
    | SetHeader(header: Header, rest: Body)

  const HTTP_OK := 200

  // ---- The reference meaning: depth-first, up to the first exception -------------------

  datatype Stream = Stream(values: seq<Value>, failure: Option<Exn>)

  /** `a`, and then `b` unless `a` failed. */
  function Then(a: Stream, b: Stream): Stream {
    if a.failure.Some? then a else Stream(a.values + b.values, b.failure)
  }

  /** What a body gives from a suspension point on; metadata after data is itself a failure. */
  function Flatten(b: Body, dataYielded: bool): Stream {
    match b
    case Return => Stream([], None)
    case Throw(e) => Stream([], Some(e))
    case Emit(v, rest) => Then(Stream([v], None), Flatten(rest, true))
    case Splice(g, rest) => Then(Flatten(g, false), Flatten(rest, true))
    case SetStatus(_, rest) => if dataYielded then Stream([], Some(LateMetadata)) else Flatten(rest, false)
    case SetHeader(_, rest) => if dataYielded then Stream([], Some(LateMetadata)) else Flatten(rest, false)
  }

  function StreamOf(b: Body): Stream {
    Flatten(b, false)
  }

  datatype Meta = Meta(status: int, headers: seq<Header>)

  const INITIAL := Meta(HTTP_OK, [])

  /** The metadata set before the first data or inner generator. */
  function Metadata(b: Body, m: Meta): Meta {
    match b
    case SetStatus(code, rest) => Metadata(rest, m.(status := code))
    case SetHeader(h, rest) => Metadata(rest, m.(headers := m.headers + [h]))
    case _ => m
  }

  function MetadataOf(b: Body): Meta {
    Metadata(b, INITIAL)
  }

  lemma ThenAssociative(a: Stream, b: Stream, c: Stream)
    ensures Then(Then(a, b), c) == Then(a, Then(b, c))
  {
    assert (a.values + b.values) + c.values == a.values + (b.values + c.values);
  }

  /** The number of steps a body can take. */
  function Size(b: Body): nat {
    match b
    case Return => 0
    case Throw(_) => 0
    case Emit(_, rest) => 1 + Size(rest)
    case Splice(g, rest) => 2 + Size(g) + Size(rest)
    case SetStatus(_, rest) => 1 + Size(rest)
    case SetHeader(_, rest) => 1 + Size(rest)
  }

  // ---- The machine ----------------------------------------------------------------------

  /** What `next()` gives the consumer: a value or the end, or a pending exception thrown at it. */
  datatype Outcome = Delivered(value: Option<Value>) | Rethrown(e: Exn)

  class Generator {
    var body: Body                    // from its suspension point on
    var ended: bool                   // at the final suspension
    var exception: Option<Exn>
    var inner: Generator?             // the generator being flattened
    var meta: Meta
    var dataYielded: bool
    ghost var Repr: set<object>

    ghost predicate Valid()
      reads this, Repr
      decreases Repr
    {
      this in Repr &&
      (inner != null ==>
         inner in Repr && inner.Repr <= Repr && this !in inner.Repr && inner.Valid() && dataYielded && !ended)
    }

    /** What the consumer has still to see. */
    ghost function Rest(): Stream
      reads this, Repr
      requires Valid()
      decreases Repr
    {
      if exception.Some? then Stream([], exception)
      else if ended then Stream([], None)
      else if inner != null then Then(inner.Rest(), Flatten(body, dataYielded))
      else Flatten(body, dataYielded)
    }

    ghost function Work(): nat
      reads this, Repr
      requires Valid()
      decreases Repr
    {
      Size(body) + if inner != null then 1 + inner.Work() else 0
    }

    /** The metadata once the whole body has run. */
    ghost function FinalMeta(): Meta
      reads this
    {
      if dataYielded || ended then meta else Metadata(body, meta)
    }

    constructor (g: Body)
      ensures Valid() && fresh(Repr)
      ensures Rest() == StreamOf(g) && FinalMeta() == MetadataOf(g) && Work() == Size(g)
      ensures exception.None? && !ended
    {
      body := g;
      ended, exception, inner, meta, dataYielded := false, None, null, INITIAL, false;
      Repr := {this};
    }

    /** Drive the generator forward by one step. */
    method Next() returns (r: Outcome)
      requires Valid()
      modifies Repr
      ensures Valid() && fresh(Repr - old(Repr))
      ensures match r
              case Rethrown(e) => old(exception) == Some(e) && exception.None?
              case Delivered(None) =>
                old(exception).None? && old(Rest()) == Stream([], exception) && Rest() == Stream([], exception)
              case Delivered(Some(v)) =>
                old(exception).None? && exception.None? && !ended && old(Rest()) == Then(Stream([v], None), Rest())
      ensures Work() <= old(Work()) && (r.Delivered? && r.value.Some? ==> Work() < old(Work()))
      ensures FinalMeta() == old(FinalMeta())
      ensures r.Delivered? && old(!ended) ==> FinalMeta() == meta
      decreases Work(), 2
    {
      if exception.Some? {
        r := Rethrown(exception.value);
        exception := None;
        return;
      }
      if ended { return Delivered(None); }
      if inner != null {
        ghost var innerRest, after := inner.Rest(), Flatten(body, dataYielded);
        r := inner.Next();
        Repr := Repr + inner.Repr;
        match r
        case Rethrown(e) =>
          exception, inner := Some(e), null;
          return Delivered(None);
        case Delivered(Some(v)) =>
          ThenAssociative(Stream([v], None), inner.Rest(), after);
          return;
        case Delivered(None) =>
          if inner.exception.Some? {
            exception := inner.exception;
            inner := null;
            return;
          }
          NothingThen(after);
          inner := null;
      }
      r := Resume();
    }

    /** If the body stashed an exception, hand it over and clear it. */
    method RethrowIfException() returns (e: Option<Exn>)
      requires Valid()
      modifies `exception
      ensures Valid() && Repr == old(Repr) && e == old(exception) && exception.None?
      ensures Work() == old(Work())
      ensures meta == old(meta) && dataYielded == old(dataYielded) && ended == old(ended) && body == old(body)
    {
      e, exception := exception, None;
    }

    /** Run the body to its next suspension. */
    method Resume() returns (r: Outcome)
      requires Valid() && exception.None? && !ended && inner == null
      modifies this
      ensures Valid() && fresh(Repr - old(Repr))
      ensures match r
              case Rethrown(_) => false
              case Delivered(None) => old(Rest()) == Stream([], exception) && Rest() == Stream([], exception)
              case Delivered(Some(v)) =>
                exception.None? && !ended && old(Rest()) == Then(Stream([v], None), Rest())
      ensures Work() <= old(Work()) && (r.value.Some? ==> Work() < old(Work()))
      ensures FinalMeta() == old(FinalMeta()) == meta
      decreases Work(), 1
    {
      ghost var rest0, meta0 := Rest(), FinalMeta();
      while true
        invariant Valid() && fresh(Repr - old(Repr)) && exception.None? && !ended && inner == null
        invariant Rest() == rest0 && FinalMeta() == meta0
        invariant Size(body) <= old(Work())
        decreases body
      {
        match body
        case Return =>
          ended := true;
          return Delivered(None);
        case Throw(e) =>
          ended, exception := true, Some(e);
          return Delivered(None);
        case Emit(v, rest) =>
          body, dataYielded := rest, true;
          return Delivered(Some(v));
        case SetStatus(code, rest) =>
          if dataYielded {
            ended, exception := true, Some(LateMetadata);
            return Delivered(None);
          }
          body, meta := rest, meta.(status := code);
        case SetHeader(h, rest) =>
          if dataYielded {
            ended, exception := true, Some(LateMetadata);
            return Delivered(None);
          }
          body, meta := rest, meta.(headers := meta.headers + [h]);
        case Splice(g, rest) =>
          var suspended;
          r, suspended := Flattened(g, rest);
          if suspended { return; }
      }
    }

    /** `flatten_awaiter`: drive an inner generator to its first value. Not suspended means that the
        inner was exhausted at once and the body goes on. */
    method Flattened(g: Body, rest: Body) returns (r: Outcome, suspended: bool)
      requires Valid() && exception.None? && !ended && inner == null && body == Splice(g, rest)
      modifies this
      ensures Valid() && fresh(Repr - old(Repr))
      ensures if !suspended then
                body == rest && exception.None? && !ended && inner == null && Rest() == old(Rest())
              else
                match r
                case Rethrown(_) => false
                case Delivered(None) => old(Rest()) == Stream([], exception) && Rest() == Stream([], exception)
                case Delivered(Some(v)) =>
                  exception.None? && !ended && old(Rest()) == Then(Stream([v], None), Rest())
      ensures dataYielded && Work() < old(Work())
      ensures FinalMeta() == old(FinalMeta())
      decreases Work(), 0
    {
      body, dataYielded := rest, true;
      var child := new Generator(g);
      ghost var after := Flatten(rest, true);
      r := child.Next();
      suspended := true;
      if r.value.Some? {
        inner := child;
        Repr := Repr + child.Repr;
        ThenAssociative(Stream([r.value.value], None), child.Rest(), after);
        return;
      }
      if child.exception.Some? {
        exception := child.exception;
        return;
      }
      NothingThen(after);
      suspended := false;
    }
  }

  lemma NothingThen(s: Stream)
    ensures Then(Stream([], None), s) == s
  {
    assert [] + s.values == s.values;
  }

  // ---- Depth first ------------------------------------------------------------------------

  /** Every value in the tree, depth first, whether or not the body gets that far. */
  function AllValues(b: Body): seq<Value> {
    match b
    case Return => []
    case Throw(_) => []
    case Emit(v, rest) => [v] + AllValues(rest)
    case Splice(g, rest) => AllValues(g) + AllValues(rest)
    case SetStatus(_, rest) => AllValues(rest)
    case SetHeader(_, rest) => AllValues(rest)
  }

  /** No metadata anywhere: the body of an `async_generator`. */
  predicate Plain(b: Body) {
    match b
    case Return => true
    case Throw(_) => true
    case Emit(_, rest) => Plain(rest)
    case Splice(g, rest) => Plain(g) && Plain(rest)
    case SetStatus(_, _) => false
    case SetHeader(_, _) => false
  }

  predicate Throws(b: Body) {
    match b
    case Return => false
    case Throw(_) => true
    case Emit(_, rest) => Throws(rest)
    case Splice(g, rest) => Throws(g) || Throws(rest)
    case SetStatus(_, rest) => Throws(rest)
    case SetHeader(_, rest) => Throws(rest)
  }

  /** The values up to the first exception are a prefix of the depth-first sequence of all values, and
      all of them when nothing fails; a plain body fails exactly when some body in the tree throws. */
  lemma {:induction false} DepthFirst(b: Body, dataYielded: bool)
    ensures Flatten(b, dataYielded).values <= AllValues(b)
    ensures Flatten(b, dataYielded).failure.None? ==> Flatten(b, dataYielded).values == AllValues(b)
    ensures Plain(b) ==> (Flatten(b, dataYielded).failure.Some? <==> Throws(b))
  {
    match b
    case Return =>
    case Throw(_) =>
    case Emit(v, rest) =>
      DepthFirst(rest, true);
      PrefixAppend([v], Flatten(rest, true).values, AllValues(rest));
    case Splice(g, rest) =>
      DepthFirst(g, false);
      DepthFirst(rest, true);
      if Flatten(g, false).failure.None? {
        PrefixAppend(AllValues(g), Flatten(rest, true).values, AllValues(rest));
      }
    case SetStatus(_, rest) => DepthFirst(rest, false);
    case SetHeader(_, rest) => DepthFirst(rest, false);
  }

  lemma PrefixAppend(a: seq<Value>, b: seq<Value>, c: seq<Value>)
    requires b <= c
    ensures a + b <= a + c
  {
    assert c == b + c[|b|..];
    assert a + c == (a + b) + c[|b|..];
  }

  /** The consumer's loop: repeated `next()` gives exactly the depth-first values up to the first
      exception, then the end, with that exception on the outermost generator. */
  method Drain(b: Body) returns (values: seq<Value>, failure: Option<Exn>, meta: Meta)
    ensures Stream(values, failure) == StreamOf(b)
    ensures meta == MetadataOf(b)
  {
    var g := new Generator(b);
    values, failure := [], None;
    while true
      invariant g.Valid() && fresh(g.Repr) && g.exception.None? && !g.ended
      invariant Then(Stream(values, None), g.Rest()) == StreamOf(b)
      invariant g.FinalMeta() == MetadataOf(b)
      decreases g.Work()
    {
      ghost var seen := values;
      var r := g.Next();
      match r.value {
        case Some(v) =>
          ThenAssociative(Stream(seen, None), Stream([v], None), g.Rest());
          values := values + [v];
        case None =>
          assert values + [] == values;
          meta := g.meta;
          failure := g.RethrowIfException();
          return;
      }
    }
  }

  // ---- relay_stream ---------------------------------------------------------------------------

  /** `relay_stream`, as a coroutine that is resumed for one value at a time: the inner generator is driven
      to its first value, its status and headers are replayed with the extra ones behind them, and from
      then on each resumption pulls one value. */
  class Relay {
    const inner: Generator
    const isChunked: bool
    const extra: seq<Header>
    var begun: bool
    var ended: bool
    var exception: Option<Exn>
    var meta: Meta

    ghost predicate Valid()
      reads this, inner, inner.Repr
    {
      inner.Valid() && this !in inner.Repr &&
      (!ended ==> inner.exception.None?) && (!begun ==> !ended && !inner.ended && exception.None?)
    }

    /** What the consumer has still to see: what the inner generator has still to give. */
    ghost function Rest(): Stream
      reads this, inner, inner.Repr
      requires Valid()
    {
      if exception.Some? then Stream([], exception) else if ended then Stream([], None) else inner.Rest()
    }

    /** The inner's metadata, if it carries any, and the extra headers. */
    function Replayed(m: Meta): Meta {
      var own := if isChunked then m else INITIAL;
      own.(headers := own.headers + extra)
    }

    ghost function FinalMeta(): Meta
      reads this, inner
    {
      if begun then meta else Replayed(inner.FinalMeta())
    }

    constructor (inner: Generator, isChunked: bool, extra: seq<Header>)
      requires inner.Valid() && inner.exception.None? && !inner.ended
      ensures Valid() && this.inner == inner && !begun && exception.None? && !ended
      ensures Rest() == inner.Rest()
      ensures var m := if isChunked then inner.FinalMeta() else INITIAL;
              FinalMeta() == m.(headers := m.headers + extra)
    {
      this.inner, this.isChunked, this.extra := inner, isChunked, extra;
      begun, ended, exception, meta := false, false, None, INITIAL;
    }

    /** Drive the relay forward by one step: the same contract as the inner's, and while the relay goes on
        it holds nothing back that it has pulled. */
    method Next() returns (r: Outcome)
      requires Valid()
      modifies this, inner.Repr
      ensures Valid() && fresh(inner.Repr - old(inner.Repr))
      ensures match r
              case Rethrown(e) => old(exception) == Some(e) && exception.None? && ended == old(ended)
              case Delivered(None) =>
                old(exception).None? && old(Rest()) == Stream([], exception) && Rest() == Stream([], exception)
              case Delivered(Some(v)) =>
                && old(exception).None? && exception.None? && !ended
                && old(Rest()) == Then(Stream([v], None), Rest()) && Rest() == inner.Rest()
      ensures inner.Work() <= old(inner.Work()) && (r.Delivered? && r.value.Some? ==> inner.Work() < old(inner.Work()))
      ensures FinalMeta() == old(FinalMeta()) && (r.Delivered? ==> begun && meta == FinalMeta())
    {
      if exception.Some? {
        r := Rethrown(exception.value);
        exception := None;
        return;
      }
      if ended { return Delivered(None); }
      r := inner.Next();
      if !begun { Replay(); }
      if r.value.None? {
        exception := inner.RethrowIfException();
        ended := true;
      }
    }

    /** Status and headers, before any data. */
    method Replay()
      requires !begun
      modifies `begun, `meta
      ensures begun && meta == Replayed(inner.meta)
    {
      begun, meta := true, INITIAL;
      if isChunked {
        meta := meta.(status := inner.meta.status);
        for i := 0 to |inner.meta.headers|
          invariant begun && meta == Meta(inner.meta.status, inner.meta.headers[..i])
        {
          meta := meta.(headers := meta.headers + [inner.meta.headers[i]]);
        }
        assert inner.meta.headers[..|inner.meta.headers|] == inner.meta.headers;
      }
      ghost var own := meta;
      for i := 0 to |extra|
        invariant begun && meta == own.(headers := own.headers + extra[..i])
      {
        meta := meta.(headers := meta.headers + [extra[i]]);
      }
      assert extra[..|extra|] == extra;
    }
  }

  /** The consumer's loop over a relay: the inner's values and final exception, under the replayed metadata. */
  method DrainRelay(relay: Relay) returns (values: seq<Value>, failure: Option<Exn>)
    requires relay.Valid() && relay.exception.None? && !relay.ended
    modifies relay, relay.inner.Repr
    ensures Stream(values, failure) == old(relay.inner.Rest())
    ensures relay.begun && relay.meta == old(relay.FinalMeta())
  {
    values := [];
    ghost var all := relay.Rest();
    assert Then(Stream([], None), all) == all by { NothingThen(all); }
    while true
      invariant relay.Valid() && fresh(relay.inner.Repr - old(relay.inner.Repr))
      invariant relay.exception.None? && !relay.ended
      invariant Then(Stream(values, None), relay.Rest()) == all
      invariant relay.FinalMeta() == old(relay.FinalMeta())
      decreases relay.inner.Work()
    {
      ghost var seen := values;
      var r := relay.Next();
      match r.value {
        case Some(v) =>
          ThenAssociative(Stream(seen, None), Stream([v], None), relay.Rest());
          values := values + [v];
        case None =>
          assert values + [] == values;
          return values, relay.exception;
      }
    }
  }
}
