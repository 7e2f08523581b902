// JSON-RPC dispatch and batches (sections 4 to 6 of the JSON-RPC 2.0 Specification).

module JsonRpc {
  import opened Wrappers
  import opened JsonRpcRegistry

  datatype Envelope = Envelope(rpcMethod: string, id: Option<Json>, params: Option<Json>)

  datatype ErrorInfo = ErrorInfo(code: int, message: string, data: Option<Json>)

  datatype Category = OfJsonRpc | OfTaar | OfOthers

  /** A callable's exception, wrapped: the category and value of its code, the code's own text, the message
      and data it carries, and the text of it all. */
  datatype Failure = Failure(
    category: Category, code: int, unknown: bool, codeText: string, message: string, data: Json, text: string)

  /** What other requests of the endpoint do while a callable runs: a cancel, a request that begins, or one
      of those in flight that ends. */
  datatype Other = CancelCall(scopeKey: string, id: Json) | BeginOther(scopeKey: string, id: Json) | EndOther(n: nat)

  /** How a call to a method's callable goes: what it ends with, and what others do meanwhile. */
  datatype Call = Call(outcome: Result<Json, Failure>, meanwhile: seq<Other>)

  /** An installed mapper; nothing stands for one that throws. */
  type Mapper = Failure -> Option<ErrorInfo>

  const INVALID_REQUEST := -32600
  const METHOD_NOT_FOUND := -32601
  const INVALID_PARAMS := -32602
  const INTERNAL_ERROR := -32603
  const REQUEST_CANCELLED := -32800

  /** `default_error_mapper`. */
  function DefaultMapper(f: Failure): ErrorInfo {
    if f.category == OfJsonRpc then
      ErrorInfo(f.code, if f.message == "" then f.codeText else f.message, None)
    else if f.category == OfTaar && !f.unknown then
      var data := if f.data.Object? then Object(f.data.members["message" := Str(f.text)]) else Str(f.text);
      ErrorInfo(INVALID_PARAMS, "Invalid params.", Some(data))
    else
      ErrorInfo(INTERNAL_ERROR, if f.message == "" then "Internal error." else f.message, None)
  }

  /** `map_failure`: a mapper that throws falls back to the default. */
  function MapFailure(mapper: Mapper, f: Failure): ErrorInfo {
    match mapper(f)
    case Some(info) => info
    case None => DefaultMapper(f)
  }

  function ParseEnvelope(value: Json): Option<Envelope> {
    if !value.Object? then None
    else
      var m := value.members;
      if "jsonrpc" !in m || m["jsonrpc"] != Str("2.0") then None
      else if "method" !in m || !m["method"].Str? then None
      else
        Some(Envelope(m["method"].s,
                      if "id" in m then Some(m["id"]) else None,
                      if "params" in m then Some(m["params"]) else None))
  }

  /** The id of an element that is no envelope, if it can be recovered. */
  function RecoverableId(element: Json): Json {
    if element.Object? && "id" in element.members then
      var id := element.members["id"];
      if id.Str? || id.Number? || id.Null? then id else Null
    else Null
  }

  function MakeResponse(id: Json, result: Json): Json {
    Object(map["jsonrpc" := Str("2.0"), "id" := id, "result" := result])
  }

  function MakeErrorResponse(id: Json, code: int, message: string, data: Option<Json>): Json {
    var e := map["code" := Number(code), "message" := Str(message)];
    Object(map["jsonrpc" := Str("2.0"), "id" := id, "error" := Object(if data.Some? then e["data" := data.value] else e)])
  }

  // ---- What an element is owed ----

  /** A well-formed request object without an id. */
  predicate IsNotification(element: Json) {
    && element.Object?
    && "jsonrpc" in element.members && element.members["jsonrpc"] == Str("2.0")
    && "method" in element.members && element.members["method"].Str?
    && "id" !in element.members
  }

  /** The answer to an envelope: unknown methods first, then a cancel of this very request, then what
      the callable ended with; a notification gets none in any case. */
  function ReplyTo(methods: set<string>, mapper: Mapper, env: Envelope, call: Call, scopeKey: string): Option<Json> {
    match env.id
    case None => None
    case Some(id) =>
      if env.rpcMethod !in methods then Some(MakeErrorResponse(id, METHOD_NOT_FOUND, "Method not found.", None))
      else if CancelCall(scopeKey, id) in call.meanwhile then Some(MakeErrorResponse(id, REQUEST_CANCELLED, "Request cancelled", None))
      else
        match call.outcome
        case Ok(result) => Some(MakeResponse(id, result))
        case Err(f) =>
          var info := MapFailure(mapper, f);
          Some(MakeErrorResponse(id, info.code, info.message, info.data))
  }

  /** The answer to one element of a batch, or to a single object. */
  function ElementReply(methods: set<string>, mapper: Mapper, element: Json, call: Call): Option<Json> {
    match ParseEnvelope(element)
    case None => Some(MakeErrorResponse(RecoverableId(element), INVALID_REQUEST, "Invalid Request.", None))
    case Some(env) => ReplyTo(methods, mapper, env, call, "")
  }

  // ---- What the answers hold ----

  /** The response object with this id and result. */
  predicate IsResult(answer: Option<Json>, id: Json, result: Json) {
    && answer.Some? && answer.value.Object?
    && var m := answer.value.members;
       && m.Keys == {"jsonrpc", "id", "result"}
       && m["jsonrpc"] == Str("2.0") && m["id"] == id && m["result"] == result
  }

  /** The response object with this id and error. */
  predicate IsError(answer: Option<Json>, id: Json, code: int, message: string, data: Option<Json>) {
    && answer.Some? && answer.value.Object?
    && var m := answer.value.members;
       && m.Keys == {"jsonrpc", "id", "error"}
       && m["jsonrpc"] == Str("2.0") && m["id"] == id && m["error"].Object?
       && var e := m["error"].members;
          && e.Keys == {"code", "message"} + (if data.Some? then {"data"} else {})
          && e["code"] == Number(code) && e["message"] == Str(message) && (data.Some? ==> e["data"] == data.value)
  }

  /** A failure under the default mapping. A message is only replaced when it is empty. */
  predicate IsDefaultError(answer: Option<Json>, id: Json, f: Failure) {
    match f.category
    case OfJsonRpc => IsError(answer, id, f.code, if f.message == "" then f.codeText else f.message, None)
    case OfTaar =>
      if f.unknown then IsInternalError(answer, id, f)
      else if f.data.Object? then
        IsError(answer, id, -32602, "Invalid params.", Some(Object(f.data.members["message" := Str(f.text)])))
      else IsError(answer, id, -32602, "Invalid params.", Some(Str(f.text)))
    case OfOthers => IsInternalError(answer, id, f)
  }

  predicate IsInternalError(answer: Option<Json>, id: Json, f: Failure) {
    IsError(answer, id, -32603, if f.message == "" then "Internal error." else f.message, None)
  }

  /** What a request of this method and id is answered. */
  predicate AnswersRequest(methods: set<string>, mapper: Mapper, rpcMethod: string, id: Json, call: Call, scopeKey: string,
                           answer: Option<Json>) {
    if rpcMethod !in methods then IsError(answer, id, -32601, "Method not found.", None)
    else if CancelCall(scopeKey, id) in call.meanwhile then IsError(answer, id, -32800, "Request cancelled", None)
    else
      match call.outcome
      case Ok(result) => IsResult(answer, id, result)
      case Err(f) =>
        match mapper(f)
        case Some(info) => IsError(answer, id, info.code, info.message, info.data)
        case None => IsDefaultError(answer, id, f)
  }

  /** What an element of a batch, or a single body, is answered, by the members it has. */
  predicate AnswersElement(methods: set<string>, mapper: Mapper, element: Json, call: Call, answer: Option<Json>) {
    if !element.Object? then IsError(answer, Null, -32600, "Invalid Request.", None)
    else
      var m := element.members;
      var id := if "id" in m then m["id"] else Null;
      if "jsonrpc" in m && m["jsonrpc"] == Str("2.0") && "method" in m && m["method"].Str? then
        if "id" in m then AnswersRequest(methods, mapper, m["method"].s, id, call, "", answer) else answer == None
      else
        IsError(answer, if id.Str? || id.Number? then id else Null, -32600, "Invalid Request.", None)
  }

  /** Dispatch answers as section 5 of the JSON-RPC 2.0 Specification lays out, member by member. */
  lemma RepliesHold(methods: set<string>, mapper: Mapper, env: Envelope, call: Call, scopeKey: string)
    ensures var reply := ReplyTo(methods, mapper, env, call, scopeKey);
            if env.id.None? then reply == None
            else AnswersRequest(methods, mapper, env.rpcMethod, env.id.value, call, scopeKey, reply)
  {
  }

  lemma ElementRepliesHold(methods: set<string>, mapper: Mapper, element: Json, call: Call)
    ensures AnswersElement(methods, mapper, element, call, ElementReply(methods, mapper, element, call))
  {
    hide AnswersRequest, ReplyTo;
    if ParseEnvelope(element).Some? { RepliesHold(methods, mapper, ParseEnvelope(element).value, call, ""); }
  }

  // ---- Dispatch ----

  /** Scopes that may be reached by a cancel. */
  ghost function ScopesOf(history: seq<Event>): set<RequestScope> {
    set e | e in history && e.Begun? :: e.scope
  }

  lemma PendingAreBegun(history: seq<Event>, s: string, i: Json)
    ensures forall x :: x in Pending(history, s, i) ==> x in ScopesOf(history)
  {
    forall x | x in Pending(history, s, i) ensures x in ScopesOf(history) {
      PendingIsBegunNotEnded(history, s, i, x);
      var k :| 0 <= k < |history| && history[k] == Begun(s, i, x)
               && forall m :: k < m < |history| ==> history[m] != Ended(x);
      assert history[k] in history;
    }
  }

  lemma {:induction false} WithoutCommutes<T>(s: seq<T>, x: T, y: T)
    ensures Without(Without(s, x), y) == Without(Without(s, y), x)
    decreases |s|
  {
    if s != [] {
      var n := |s| - 1;
      WithoutCommutes(s[..n], x, y);
      WithoutSnoc(Without(s[..n], x), s[n], y);
      WithoutSnoc(Without(s[..n], y), s[n], x);
    }
  }

  lemma WithoutSnoc<T>(s: seq<T>, last: T, x: T)
    ensures Without(s + [last], x) == if last == x then Without(s, x) else Without(s, x) + [last]
  {
    assert (s + [last])[..|s|] == s;
  }

  lemma PendingSnoc(history: seq<Event>, e: Event, s: string, i: Json)
    ensures Pending(history + [e], s, i) ==
            if e.Ended? then Without(Pending(history, s, i), e.scope)
            else Pending(history, s, i) + if e.scopeKey == s && e.id == i then [e.scope] else []
  {
    assert (history + [e])[..|history|] == history;
    assert Pending(history, s, i) + [] == Pending(history, s, i);
  }

  ghost predicate OfOtherScopes(events: seq<Event>, scope: RequestScope) {
    forall e <- events :: e.scope != scope
  }

  /** While one request is in flight, whatever others do, it is the only difference. */
  lemma {:induction false} OthersAround(history: seq<Event>, mine: Event, others: seq<Event>, s: string, i: Json)
    requires mine.Begun? && mine.scope !in ScopesOf(history) && OfOtherScopes(others, mine.scope)
    ensures Without(Pending(history + [mine] + others, s, i), mine.scope) == Pending(history + others, s, i)
    ensures mine.scope in Pending(history + [mine] + others, s, i) <==> mine.scopeKey == s && mine.id == i
    decreases |others|
  {
    hide Pending, Without, ScopesOf;
    if others == [] {
      assert history + [mine] + others == history + [mine] && history + others == history;
      PendingSnoc(history, mine, s, i);
      PendingAreBegun(history, s, i);
      WithoutSnoc(Pending(history, s, i), mine.scope, mine.scope);
      WithoutAbsent(Pending(history, s, i), mine.scope);
      assert Pending(history, s, i) + [] == Pending(history, s, i);
    } else {
      var n := |others| - 1;
      var before, e := others[..n], others[n];
      OthersAround(history, mine, before, s, i);
      assert history + [mine] + others == (history + [mine] + before) + [e];
      assert history + others == (history + before) + [e];
      PendingSnoc(history + [mine] + before, e, s, i);
      PendingSnoc(history + before, e, s, i);
      assert e in others;
      OneOther(Pending(history + [mine] + before, s, i), e, mine.scope, s, i);
    }
  }

  /** One event of another scope, on a list of what is pending. */
  lemma OneOther(all: seq<RequestScope>, e: Event, scope: RequestScope, s: string, i: Json)
    requires e.scope != scope
    ensures var after := if e.Ended? then Without(all, e.scope) else all + if e.scopeKey == s && e.id == i then [e.scope] else [];
            var less := Without(all, scope);
            && Without(after, scope) ==
                 (if e.Ended? then Without(less, e.scope) else less + if e.scopeKey == s && e.id == i then [e.scope] else [])
            && (scope in after <==> scope in all)
  {
    if e.Begun? {
      WithoutSnoc(all, e.scope, scope);
      assert all + [] == all && Without(all, scope) + [] == Without(all, scope);
    } else {
      WithoutCommutes(all, e.scope, scope);
    }
  }

  /** Beginning and ending a request leaves pending exactly what the others leave, whatever they do in
      between: beginning, ending, in any number and order. */
  lemma BeginThenEnd(history: seq<Event>, mine: Event, others: seq<Event>, s: string, i: Json)
    requires mine.Begun? && mine.scope !in ScopesOf(history) && OfOtherScopes(others, mine.scope)
    ensures Pending(history + [mine] + others + [Ended(mine.scope)], s, i) == Pending(history + others, s, i)
  {
    OthersAround(history, mine, others, s, i);
    PendingSnoc(history + [mine] + others, Ended(mine.scope), s, i);
  }

  /** A request of someone else that is in flight. */
  datatype InFlight = InFlight(scoped: ScopedRequest, scopeKey: string, id: Json)

  ghost predicate AreInFlight(registry: Registry, live: seq<InFlight>)
    reads registry
  {
    forall o <- live ::
      && o.scoped.key == InFlightKey(registry.serialize, o.scopeKey, o.id)
      && o.scoped.scope in ScopesOf(registry.history)
      && OnlyUnder(registry.history, o.scoped.scope, o.scopeKey, o.id)
  }

  /** One thing that another request does. It cancels the request at hand exactly when it is a cancel of
      what that is pending under. */
  method OtherDoes(registry: Registry, other: Other, live: seq<InFlight>, ghost scope: RequestScope)
    returns (live1: seq<InFlight>, ghost events: seq<Event>)
    requires registry.Valid() && AreInFlight(registry, live) && forall o <- live :: o.scoped.scope != scope
    modifies registry, ScopesOf(registry.history)
    ensures registry.Valid() && AreInFlight(registry, live1) && forall o <- live1 :: o.scoped.scope != scope
    ensures registry.history == old(registry.history) + events && OfOtherScopes(events, scope)
    ensures forall x :: x in ScopesOf(registry.history) ==> x in ScopesOf(old(registry.history)) || fresh(x)
    ensures scope.cancelled <==>
            old(scope.cancelled) || (other.CancelCall? && scope in Pending(old(registry.history), other.scopeKey, other.id))
  {
    hide Pending, InFlightKey, Serializes;
    live1, events := live, [];
    match other {
      case CancelCall(scopeKey, id) =>
        PendingAreBegun(registry.history, scopeKey, id);
        var _ := registry.Cancel(id, scopeKey);
        assert registry.history == old(registry.history) + [];
      case BeginOther(scopeKey, id) =>
        var scoped := registry.BeginRequest(Some(id), scopeKey);
        events := [Begun(scopeKey, id, scoped.scope)];
        live1 := live + [InFlight(scoped, scopeKey, id)];
        StillInFlight(registry, old(registry.history), live, events[0]);
      case EndOther(n) =>
        if n < |live| {
          var o := live[n];
          assert o in live;
          registry.EndRequest(o.scoped, o.scopeKey, o.id);
          events := [Ended(o.scoped.scope)];
          StillInFlight(registry, old(registry.history), live, events[0]);
          live1 := live[..n] + live[n + 1..];
        } else {
          assert registry.history == old(registry.history) + [];
        }
    }
  }

  lemma StillInFlight(registry: Registry, history: seq<Event>, live: seq<InFlight>, e: Event)
    requires registry.history == history + [e]
    requires forall o <- live ::
               && o.scoped.key == InFlightKey(registry.serialize, o.scopeKey, o.id)
               && o.scoped.scope in ScopesOf(history) && OnlyUnder(history, o.scoped.scope, o.scopeKey, o.id)
    requires e.Begun? ==> e.scope !in ScopesOf(history)
    ensures AreInFlight(registry, live)
    ensures forall x :: x in ScopesOf(registry.history) ==> x in ScopesOf(history) || (e.Begun? && x == e.scope)
  {
  }

  /** What others do while a callable runs. A request that is registered is cancelled exactly by a cancel with
      its own scope key and id; one that is not, by none. */
  method Interfere(registry: Registry, meanwhile: seq<Other>, live: seq<InFlight>, scope: RequestScope,
                   ghost history0: seq<Event>, ghost mine: seq<Event>)
    returns (live1: seq<InFlight>, ghost others: seq<Event>)
    requires registry.Valid() && AreInFlight(registry, live) && !scope.cancelled
    requires registry.history == history0 + mine && scope !in ScopesOf(history0) && |mine| <= 1
    requires forall e <- mine :: e.Begun? && e.scope == scope
    requires forall o <- live :: o.scoped.scope != scope
    modifies registry, ScopesOf(registry.history)
    ensures registry.Valid() && AreInFlight(registry, live1) && forall o <- live1 :: o.scoped.scope != scope
    ensures registry.history == history0 + mine + others && OfOtherScopes(others, scope)
    ensures forall x :: x in ScopesOf(registry.history) ==> x in ScopesOf(history0 + mine) || fresh(x)
    ensures scope.cancelled <==> mine != [] && CancelCall(mine[0].scopeKey, mine[0].id) in meanwhile
  {
    live1, others := live, [];
    assert history0 + mine + [] == history0 + mine;
    for k := 0 to |meanwhile|
      invariant registry.Valid() && AreInFlight(registry, live1) && forall o <- live1 :: o.scoped.scope != scope
      invariant registry.history == history0 + mine + others && OfOtherScopes(others, scope)
      invariant forall x :: x in ScopesOf(registry.history) ==> x in ScopesOf(history0 + mine) || fresh(x)
      invariant scope.cancelled <==> mine != [] && CancelCall(mine[0].scopeKey, mine[0].id) in meanwhile[..k]
    {
      hide *;
      ghost var events, before := [], history0 + mine;
      if meanwhile[k].CancelCall? {
        PendingUnder(history0, mine, others, scope, meanwhile[k].scopeKey, meanwhile[k].id);
      }
      assert meanwhile[..k + 1] == meanwhile[..k] + [meanwhile[k]];
      live1, events := OtherDoes(registry, meanwhile[k], live1, scope);
      EventsConcat(before, others, events, scope);
      others := others + events;
    }
    assert meanwhile[..|meanwhile|] == meanwhile;
  }

  lemma EventsConcat(before: seq<Event>, others: seq<Event>, events: seq<Event>, scope: RequestScope)
    requires OfOtherScopes(others, scope) && OfOtherScopes(events, scope)
    ensures before + others + events == before + (others + events) && OfOtherScopes(others + events, scope)
  {
  }

  /** The one thing a scope is pending under. */
  lemma PendingUnder(history0: seq<Event>, mine: seq<Event>, others: seq<Event>, scope: RequestScope, s: string, i: Json)
    requires scope !in ScopesOf(history0) && |mine| <= 1 && OfOtherScopes(others, scope)
    requires forall e <- mine :: e.Begun? && e.scope == scope
    ensures scope in Pending(history0 + mine + others, s, i) <==> mine != [] && mine[0].scopeKey == s && mine[0].id == i
  {
    if mine == [] {
      PendingAreBegun(history0 + mine + others, s, i);
      assert scope !in ScopesOf(history0 + mine + others);
    } else {
      assert mine == [mine[0]];
      OthersAround(history0, mine[0], others, s, i);
    }
  }

  /** A request is registered while its callable runs. It is seen as cancelled exactly when a cancel with
      its own scope key and id arrived meanwhile, and afterwards pending is exactly what the others leave. */
  method RunRegistered(registry: Registry, id: Json, meanwhile: seq<Other>, live: seq<InFlight>, scopeKey: string)
    returns (cancelled: bool, live1: seq<InFlight>, ghost others: seq<Event>)
    requires registry.Valid() && AreInFlight(registry, live)
    modifies registry, ScopesOf(registry.history)
    ensures registry.Valid() && AreInFlight(registry, live1)
    ensures cancelled <==> CancelCall(scopeKey, id) in meanwhile
    ensures forall s, i :: Pending(registry.history, s, i) == Pending(old(registry.history) + others, s, i)
    ensures forall x :: x in ScopesOf(registry.history) ==> x in ScopesOf(old(registry.history)) || fresh(x)
  {
    hide Pending, InFlightKey, Serializes;
    ghost var history0 := registry.history;
    var scoped := registry.BeginRequest(Some(id), scopeKey);
    ghost var mine := Begun(scopeKey, id, scoped.scope);
    StillInFlight(registry, history0, live, mine);
    live1, others := Interfere(registry, meanwhile, live, scoped.scope, history0, [mine]);
    cancelled := scoped.scope.cancelled;
    ghost var before := registry.history;
    registry.EndRequest(scoped, scopeKey, id);
    StillInFlight(registry, before, live1, Ended(scoped.scope));
    forall s, i ensures Pending(registry.history, s, i) == Pending(history0 + others, s, i) {
      BeginThenEnd(history0, mine, others, s, i);
    }
  }

  /** `dispatch`: a notification's callable runs unregistered, and its answer is dropped. Whatever other
      requests do meanwhile, they alone decide what is pending afterwards. */
  method Dispatch(registry: Registry, methods: set<string>, mapper: Mapper, env: Envelope, call: Call, live: seq<InFlight>,
                  scopeKey: string)
    returns (reply: Option<Json>, live1: seq<InFlight>, ghost others: seq<Event>)
    requires registry.Valid() && AreInFlight(registry, live)
    modifies registry, ScopesOf(registry.history)
    ensures registry.Valid() && AreInFlight(registry, live1)
    ensures reply == ReplyTo(methods, mapper, env, call, scopeKey)
    ensures if env.id.None? then reply == None
            else AnswersRequest(methods, mapper, env.rpcMethod, env.id.value, call, scopeKey, reply)
    ensures forall s, i :: Pending(registry.history, s, i) == Pending(old(registry.history) + others, s, i)
    ensures forall x :: x in ScopesOf(registry.history) ==> x in ScopesOf(old(registry.history)) || fresh(x)
  {
    hide Pending, MakeResponse, MakeErrorResponse, MapFailure, InFlightKey, Serializes, AreInFlight, ScopesOf;
    RepliesHold(methods, mapper, env, call, scopeKey);
    reply, live1, others := None, live, [];
    assert registry.history + [] == registry.history;
    if env.rpcMethod !in methods {
      if env.id.Some? { reply := Some(MakeErrorResponse(env.id.value, METHOD_NOT_FOUND, "Method not found.", None)); }
      return;
    }
    if env.id.None? {
      live1, others := RunNotification(registry, call.meanwhile, live, scopeKey);
      return;
    }
    var id := env.id.value;
    var cancelled;
    cancelled, live1, others := RunRegistered(registry, id, call.meanwhile, live, scopeKey);
    if cancelled {
      reply := Some(MakeErrorResponse(id, REQUEST_CANCELLED, "Request cancelled", None));
    } else {
      match call.outcome {
        case Err(f) =>
          var info := MapFailure(mapper, f);
          reply := Some(MakeErrorResponse(id, info.code, info.message, info.data));
        case Ok(result) => reply := Some(MakeResponse(id, result));
      }
    }
  }

  method RunNotification(registry: Registry, meanwhile: seq<Other>, live: seq<InFlight>, scopeKey: string)
    returns (live1: seq<InFlight>, ghost others: seq<Event>)
    requires registry.Valid() && AreInFlight(registry, live)
    modifies registry, ScopesOf(registry.history)
    ensures registry.Valid() && AreInFlight(registry, live1)
    ensures registry.history == old(registry.history) + others
    ensures forall x :: x in ScopesOf(registry.history) ==> x in ScopesOf(old(registry.history)) || fresh(x)
  {
    hide Pending, InFlightKey, Serializes;
    ghost var history0 := registry.history;
    var scoped := registry.BeginRequest(None, scopeKey);
    assert history0 + [] == history0;
    live1, others := Interfere(registry, meanwhile, live, scoped.scope, history0, []);
  }

  // ---- Batches ----

  /** The answers of the elements that have one, in order. */
  function Replies(methods: set<string>, mapper: Mapper, elements: seq<Json>, calls: seq<Call>): seq<Json>
    requires |elements| <= |calls|
  {
    if elements == [] then []
    else
      var n := |elements| - 1;
      Replies(methods, mapper, elements[..n], calls) +
      match ElementReply(methods, mapper, elements[n], calls[n]) { case Some(reply) => [reply] case None => [] }
  }

  /** The positions of the elements that are answered. */
  function Answered(elements: seq<Json>): seq<nat> {
    if elements == [] then []
    else
      var n := |elements| - 1;
      Answered(elements[..n]) + if IsNotification(elements[n]) then [] else [n]
  }

  /** `handle_json`: an empty batch is one invalid request; a batch is answered by the array of its
      answers, or by nothing when there are none; anything else is answered for itself. */
  method HandleJson(registry: Registry, methods: set<string>, mapper: Mapper, body: Json, calls: seq<Call>, live: seq<InFlight>)
    returns (answer: Option<Json>, live1: seq<InFlight>, ghost others: seq<Event>)
    requires registry.Valid() && AreInFlight(registry, live) && |calls| >= if body.Array? then |body.elements| else 1
    modifies registry, ScopesOf(registry.history)
    ensures registry.Valid() && AreInFlight(registry, live1)
    ensures forall s, i :: Pending(registry.history, s, i) == Pending(old(registry.history) + others, s, i)
    ensures answer ==
            if !body.Array? then ElementReply(methods, mapper, body, calls[0])
            else if body.elements == [] then Some(MakeErrorResponse(Null, INVALID_REQUEST, "Invalid Request.", None))
            else if forall e <- body.elements :: IsNotification(e) then None
            else Some(Array(Replies(methods, mapper, body.elements, calls)))
    ensures !body.Array? ==> AnswersElement(methods, mapper, body, calls[0], answer)
    ensures body == Array([]) ==> IsError(answer, Null, -32600, "Invalid Request.", None)
    ensures body.Array? && answer.Some? && body.elements != [] ==>
              answer.value.Array? && AnswersBatch(methods, mapper, body.elements, calls, answer.value.elements)
  {
    hide Pending, InFlightKey, Serializes, AreInFlight, ScopesOf, IsNotification, MakeErrorResponse, ReplyTo;
    hide AnswersBatch, AnswersElement, IsError;
    if body.Array? { BatchRepliesHold(methods, mapper, body.elements, calls); } else { ElementRepliesHold(methods, mapper, body, calls[0]); }
    EmptyBatchIsInvalid();
    live1, others := live, [];
    assert registry.history + [] == registry.history;
    if !body.Array? {
      var env := ParseEnvelope(body);
      if env.None? {
        answer := Some(MakeErrorResponse(RecoverableId(body), INVALID_REQUEST, "Invalid Request.", None));
      } else {
        answer, live1, others := Dispatch(registry, methods, mapper, env.value, calls[0], live, "");
      }
      return;
    }
    var elements := body.elements;
    if elements == [] {
      answer := Some(MakeErrorResponse(Null, INVALID_REQUEST, "Invalid Request.", None));
      return;
    }
    var responses;
    responses, live1, others := HandleBatch(registry, methods, mapper, elements, calls, live);
    RepliesAreAnswered(methods, mapper, elements, calls);
    NothingAnswered(elements);
    answer := if responses == [] then None else Some(Array(responses));
  }

  /** The elements of a batch, one after the other. */
  method HandleBatch(registry: Registry, methods: set<string>, mapper: Mapper, elements: seq<Json>, calls: seq<Call>, live: seq<InFlight>)
    returns (responses: seq<Json>, live1: seq<InFlight>, ghost others: seq<Event>)
    requires registry.Valid() && AreInFlight(registry, live) && |calls| >= |elements|
    modifies registry, ScopesOf(registry.history)
    ensures registry.Valid() && AreInFlight(registry, live1) && responses == Replies(methods, mapper, elements, calls)
    ensures forall s, i :: Pending(registry.history, s, i) == Pending(old(registry.history) + others, s, i)
  {
    hide Pending, InFlightKey, Serializes, AreInFlight, ScopesOf, MakeErrorResponse, ReplyTo;
    ghost var history0 := registry.history;
    responses, live1, others := [], live, [];
    assert history0 + [] == history0;
    for k := 0 to |elements|
      invariant registry.Valid() && AreInFlight(registry, live1) && responses == Replies(methods, mapper, elements[..k], calls)
      invariant forall s, i :: Pending(registry.history, s, i) == Pending(history0 + others, s, i)
      invariant forall x :: x in ScopesOf(registry.history) ==> x in ScopesOf(history0) || fresh(x)
    {
      assert elements[..k + 1][..k] == elements[..k];
      var env := ParseEnvelope(elements[k]);
      if env.None? {
        responses := responses +
                     [MakeErrorResponse(RecoverableId(elements[k]), INVALID_REQUEST, "Invalid Request.", None)];
      } else {
        ghost var before, more := registry.history, [];
        var response;
        response, live1, more := Dispatch(registry, methods, mapper, env.value, calls[k], live1, "");
        forall s, i ensures Pending(before + more, s, i) == Pending(history0 + (others + more), s, i) {
          SameAfter(before, history0 + others, more, s, i);
          assert history0 + others + more == history0 + (others + more);
        }
        others := others + more;
        if response.Some? { responses := responses + [response.value]; }
      }
    }
    assert elements[..|elements|] == elements;
  }

  /** What is pending decides what is pending after the same events. */
  lemma {:induction false} SameAfter(a: seq<Event>, b: seq<Event>, more: seq<Event>, s: string, i: Json)
    requires Pending(a, s, i) == Pending(b, s, i)
    ensures Pending(a + more, s, i) == Pending(b + more, s, i)
    decreases |more|
  {
    hide Pending, Without;
    if more == [] {
      assert a + more == a && b + more == b;
    } else {
      var n := |more| - 1;
      SameAfter(a, b, more[..n], s, i);
      assert a + more == (a + more[..n]) + [more[n]] && b + more == (b + more[..n]) + [more[n]];
      PendingSnoc(a + more[..n], more[n], s, i);
      PendingSnoc(b + more[..n], more[n], s, i);
    }
  }

  /** Nothing is owed to a notification, and to nothing else. */
  lemma OnlyNotificationsGoUnanswered(methods: set<string>, mapper: Mapper, element: Json, call: Call)
    ensures ElementReply(methods, mapper, element, call) == None <==> IsNotification(element)
  {
  }

  /** Positions of a batch's answers: increasing, and all but the notifications. */
  lemma {:induction false} AnsweredAreTheRest(elements: seq<Json>)
    ensures forall j :: 0 <= j < |Answered(elements)| ==> Answered(elements)[j] < |elements|
    ensures forall i, j :: 0 <= i < j < |Answered(elements)| ==> Answered(elements)[i] < Answered(elements)[j]
    ensures forall k :: 0 <= k < |elements| ==> (k in Answered(elements) <==> !IsNotification(elements[k]))
    decreases |elements|
  {
    hide IsNotification;
    if elements != [] {
      var n := |elements| - 1;
      AnsweredAreTheRest(elements[..n]);
      forall k | 0 <= k < |elements| ensures k in Answered(elements) <==> !IsNotification(elements[k]) {
        if k < n { assert elements[..n][k] == elements[k]; }
      }
    }
  }

  /** A batch has one answer for each element that is owed one, in the order of the elements. */
  lemma {:induction false} RepliesAreAnswered(methods: set<string>, mapper: Mapper, elements: seq<Json>, calls: seq<Call>)
    requires |elements| <= |calls|
    ensures |Replies(methods, mapper, elements, calls)| == |Answered(elements)|
    ensures forall j :: 0 <= j < |Answered(elements)| ==>
              && Answered(elements)[j] < |elements|
              && Some(Replies(methods, mapper, elements, calls)[j])
                 == ElementReply(methods, mapper, elements[Answered(elements)[j]], calls[Answered(elements)[j]])
    decreases |elements|
  {
    hide ElementReply, IsNotification;
    if elements != [] {
      var n := |elements| - 1;
      RepliesAreAnswered(methods, mapper, elements[..n], calls);
      OnlyNotificationsGoUnanswered(methods, mapper, elements[n], calls[n]);
    }
  }

  /** The answers to a batch: one for each element that is owed one, in order. */
  predicate AnswersBatch(methods: set<string>, mapper: Mapper, elements: seq<Json>, calls: seq<Call>, answers: seq<Json>)
    requires |elements| <= |calls|
  {
    && |answers| == |Answered(elements)|
    && forall j :: 0 <= j < |answers| ==>
         var k := Answered(elements)[j];
         k < |elements| && AnswersElement(methods, mapper, elements[k], calls[k], Some(answers[j]))
  }

  lemma BatchRepliesHold(methods: set<string>, mapper: Mapper, elements: seq<Json>, calls: seq<Call>)
    requires |elements| <= |calls|
    ensures AnswersBatch(methods, mapper, elements, calls, Replies(methods, mapper, elements, calls))
  {
    hide AnswersElement, ElementReply, Answered, Replies;
    RepliesAreAnswered(methods, mapper, elements, calls);
    var answers := Replies(methods, mapper, elements, calls);
    forall j | 0 <= j < |answers|
      ensures var k := Answered(elements)[j];
              k < |elements| && AnswersElement(methods, mapper, elements[k], calls[k], Some(answers[j]))
    {
      var k := Answered(elements)[j];
      ElementRepliesHold(methods, mapper, elements[k], calls[k]);
    }
  }

  lemma EmptyBatchIsInvalid()
    ensures IsError(Some(MakeErrorResponse(Null, INVALID_REQUEST, "Invalid Request.", None)), Null, -32600, "Invalid Request.", None)
  {
  }

  lemma NothingAnswered(elements: seq<Json>)
    ensures Answered(elements) == [] <==> forall e <- elements :: IsNotification(e)
  {
    AnsweredAreTheRest(elements);
    if Answered(elements) != [] { assert Answered(elements)[0] in Answered(elements); }
  }

  /** Every answer is a response object: the version, the request's own id (or, for an invalid element,
      the id if it is a string, a number or null), and either a result or an error. */
  lemma RepliesEchoIds(methods: set<string>, mapper: Mapper, element: Json, call: Call)
    requires !IsNotification(element)
    ensures var reply := ElementReply(methods, mapper, element, call);
            && reply.Some? && reply.value.Object?
            && var m := reply.value.members;
               && "jsonrpc" in m && m["jsonrpc"] == Str("2.0") && "id" in m
               && (ParseEnvelope(element).Some? ==> m["id"] == element.members["id"])
               && (ParseEnvelope(element).None? ==> m["id"] == RecoverableId(element))
               && ("result" in m <==> "error" !in m)
               && m.Keys == {"jsonrpc", "id", if "result" in m then "result" else "error"}
  {
  }

  /** The default mapping tells by the code alone whose failure it is: a JSON-RPC code is passed on, any of the
      library's own codes but the unknown exception means invalid parameters and says which, everything else
      is an internal error without data; the message is never empty unless the code's own text is. */
  lemma DefaultMapping(f: Failure)
    ensures var e := DefaultMapper(f);
            && (f.category == OfJsonRpc ==> e.code == f.code && e.data.None?)
            && (f.category == OfTaar && !f.unknown <==> e.data.Some?)
            && (e.data.Some? ==> e.code == -32602 && e.message == "Invalid params.")
            && (e.data.Some? && !f.data.Object? ==> e.data.value == Str(f.text))
            && (e.data.Some? && f.data.Object? ==>
                  && e.data.value.Object?
                  && var m := e.data.value.members;
                     "message" in m && m["message"] == Str(f.text) && m - {"message"} == f.data.members - {"message"})
            && (f.category != OfJsonRpc && e.data.None? ==> e.code == -32603)
            && (e.message == "" ==> f.category == OfJsonRpc && f.codeText == "")
  {
    if f.data.Object? { assert f.data.members["message" := Str(f.text)] - {"message"} == f.data.members - {"message"}; }
  }
}
