// The in-flight registry of a JSON-RPC endpoint: which requests have begun and not ended, by scope
// key and id, and which of them a cancel reaches.

module JsonRpcRegistry {
  import opened Wrappers

  datatype Json =
    | Null
    | Bool(b: bool)
    | Number(n: int)
    | Str(s: string)
    | Array(elements: seq<Json>)
    | Object(members: map<string, Json>)

  /** Per-request state; `cancelled` is set once and stays. */
  class RequestScope {
    const id: Json
    var cancelled: bool

    constructor (id: Json)
      ensures this.id == id && !cancelled
    {
      this.id := id;
      cancelled := false;
    }
  }

  datatype Event = Begun(scopeKey: string, id: Json, scope: RequestScope) | Ended(scope: RequestScope)

  function Without<T(==)>(s: seq<T>, x: T): (r: seq<T>)
    ensures x !in r && (forall y <- r :: y in s) && forall y <- s :: y != x ==> y in r
  {
    if s == [] then []
    else
      var rest := Without(s[..|s| - 1], x);
      if s[|s| - 1] == x then rest else rest + [s[|s| - 1]]
  }

  /** The requests begun under a scope key and id and not ended since, in the order they began. */
  ghost function Pending(history: seq<Event>, scopeKey: string, id: Json): seq<RequestScope> {
    if history == [] then []
    else
      var n := |history| - 1;
      var before := Pending(history[..n], scopeKey, id);
      match history[n]
      case Begun(key, i, scope) => if key == scopeKey && i == id then before + [scope] else before
      case Ended(scope) => Without(before, scope)
  }

  /** Pending is begun and not ended: independent of how the list is kept. */
  lemma {:induction false} PendingIsBegunNotEnded(history: seq<Event>, scopeKey: string, id: Json, scope: RequestScope)
    ensures scope in Pending(history, scopeKey, id) <==>
            exists k :: 0 <= k < |history| && history[k] == Begun(scopeKey, id, scope)
                        && forall m :: k < m < |history| ==> history[m] != Ended(scope)
    decreases |history|
  {
    if history != [] {
      var n := |history| - 1;
      var before := history[..n];
      PendingIsBegunNotEnded(before, scopeKey, id, scope);
      if scope in Pending(before, scopeKey, id) && history[n] != Ended(scope) {
        var k :| 0 <= k < |before| && before[k] == Begun(scopeKey, id, scope)
                 && forall m :: k < m < |before| ==> before[m] != Ended(scope);
        assert history[k] == Begun(scopeKey, id, scope);
        assert forall m :: k < m < |history| ==> history[m] != Ended(scope) by {
          forall m | k < m < |history| ensures history[m] != Ended(scope) {
            if m < n { assert before[m] == history[m]; }
          }
        }
      }
      if k :| 0 <= k < n && history[k] == Begun(scopeKey, id, scope)
              && forall m :: k < m < |history| ==> history[m] != Ended(scope)
      {
        assert before[k] == history[k];
        assert forall m :: k < m < |before| ==> before[m] == history[m];
      }
    }
  }

  /** `in_flight_key`: the scope key, a newline, the serialized id. */
  function InFlightKey(serialize: Json -> string, scopeKey: string, id: Json): string {
    scopeKey + "\n" + serialize(id)
  }

  /** What the keys rest on: serialized values tell ids apart and hold no raw newline. */
  ghost predicate Serializes(serialize: Json -> string) {
    (forall x, y :: serialize(x) == serialize(y) ==> x == y) && forall x :: '\n' !in serialize(x)
  }

  /** Keys are injective in the pair, even for scope keys that hold newlines themselves: the last newline
      is the separator. */
  lemma KeysAreInjective(serialize: Json -> string, s: string, x: Json, t: string, y: Json)
    requires Serializes(serialize) && InFlightKey(serialize, s, x) == InFlightKey(serialize, t, y)
    ensures s == t && x == y
  {
    LastNewline(serialize, s, x);
    LastNewline(serialize, t, y);
    var k := InFlightKey(serialize, s, x);
    assert |s| == |t|;
    assert k[..|s|] == s && k[..|t|] == t;
    assert k[|s| + 1..] == serialize(x) && k[|t| + 1..] == serialize(y);
  }

  lemma LastNewline(serialize: Json -> string, s: string, x: Json)
    requires Serializes(serialize)
    ensures var k := InFlightKey(serialize, s, x);
            |s| < |k| && k[|s|] == '\n' && forall i :: |s| < i < |k| ==> k[i] != '\n'
  {
    var k := InFlightKey(serialize, s, x);
    assert forall i :: |s| < i < |k| ==> k[i] == serialize(x)[i - |s| - 1];
  }

  /** A registered request; a notification gets a scope and an empty key. */
  datatype ScopedRequest = ScopedRequest(scope: RequestScope, key: string)

  class Registry {
    const serialize: Json -> string
    var inFlight: map<string, seq<RequestScope>>
    ghost var history: seq<Event>

    /** The map holds, under its key, exactly what is pending for each scope key and id, and no empty
        lists and no other keys. */
    ghost predicate Valid()
      reads this
    {
      && Serializes(serialize)
      && (forall s, i :: var k := InFlightKey(serialize, s, i);
           if k in inFlight then inFlight[k] == Pending(history, s, i) && inFlight[k] != []
           else Pending(history, s, i) == [])
      && (forall k <- inFlight :: exists s, i :: k == InFlightKey(serialize, s, i))
    }

    constructor (serialize: Json -> string)
      requires Serializes(serialize)
      ensures Valid() && history == [] && this.serialize == serialize
    {
      this.serialize := serialize;
      inFlight := map[];
      history := [];
    }

    /** A fresh scope, registered under its scope key and id unless the envelope is a notification. */
    method BeginRequest(id: Option<Json>, scopeKey: string) returns (r: ScopedRequest)
      requires Valid()
      modifies this
      ensures Valid() && fresh(r.scope) && !r.scope.cancelled
      ensures r.scope.id == (if id.Some? then id.value else Null)
      ensures id.None? ==> r.key == "" && history == old(history)
      ensures id.Some? ==> r.key == InFlightKey(serialize, scopeKey, id.value)
      ensures id.Some? ==> history == old(history) + [Begun(scopeKey, id.value, r.scope)]
    {
      var scope := new RequestScope(if id.Some? then id.value else Null);
      var key := "";
      if id.Some? {
        key := InFlightKey(serialize, scopeKey, id.value);
        inFlight := inFlight[key := (if key in inFlight then inFlight[key] else []) + [scope]];
        history := history + [Begun(scopeKey, id.value, scope)];
        forall s, i | InFlightKey(serialize, s, i) == key ensures s == scopeKey && i == id.value {
          KeysAreInjective(serialize, s, i, scopeKey, id.value);
        }
        assert history[..|history| - 1] == old(history);
      }
      r := ScopedRequest(scope, key);
    }

    /** Drops the request; the last one under a key takes the key with it. */
    method EndRequest(r: ScopedRequest, ghost scopeKey: string, ghost id: Json)
      requires Valid() && r.key == InFlightKey(serialize, scopeKey, id)
      requires OnlyUnder(history, r.scope, scopeKey, id)
      modifies this
      ensures Valid() && history == old(history) + [Ended(r.scope)]
    {
      history := history + [Ended(r.scope)];
      assert history[..|history| - 1] == old(history);
      forall s, i ensures Pending(history, s, i) == Without(Pending(old(history), s, i), r.scope) {
      }
      forall s, i | s != scopeKey || i != id
        ensures Pending(history, s, i) == Pending(old(history), s, i) && InFlightKey(serialize, s, i) != r.key
      {
        NotUnder(old(history), r.scope, scopeKey, id, s, i);
        WithoutAbsent(Pending(old(history), s, i), r.scope);
        if InFlightKey(serialize, s, i) == r.key { KeysAreInjective(serialize, s, i, scopeKey, id); }
      }
      if r.key !in inFlight {
        return;
      }
      var rest := Without(inFlight[r.key], r.scope);
      if rest == [] {
        inFlight := map k | k in inFlight && k != r.key :: inFlight[k];
      } else {
        inFlight := inFlight[r.key := rest];
      }
    }

    /** Cancels exactly the requests pending under the scope key and id, and says how many. */
    method Cancel(id: Json, scopeKey: string) returns (n: nat)
      requires Valid()
      modifies set s | s in Pending(history, scopeKey, id)
      ensures Valid() && n == |Pending(history, scopeKey, id)|
      ensures forall s :: s in Pending(history, scopeKey, id) ==> s.cancelled
    {
      var key := InFlightKey(serialize, scopeKey, id);
      var targets := if key in inFlight then inFlight[key] else [];
      assert targets == Pending(history, scopeKey, id);
      for k := 0 to |targets|
        invariant forall j :: 0 <= j < k ==> targets[j].cancelled
      {
        targets[k].cancelled := true;
      }
      n := |targets|;
    }
  }

  /** A scope is registered once, under one scope key and id. */
  ghost predicate OnlyUnder(history: seq<Event>, scope: RequestScope, scopeKey: string, id: Json) {
    forall e <- history :: e.Begun? && e.scope == scope ==> e.scopeKey == scopeKey && e.id == id
  }

  lemma NotUnder(history: seq<Event>, scope: RequestScope, scopeKey: string, id: Json, s: string, i: Json)
    requires OnlyUnder(history, scope, scopeKey, id) && (s != scopeKey || i != id)
    ensures scope !in Pending(history, s, i)
  {
    PendingIsBegunNotEnded(history, s, i, scope);
  }

  lemma {:induction false} WithoutAbsent<T>(s: seq<T>, x: T)
    requires x !in s
    ensures Without(s, x) == s
    decreases |s|
  {
    if s != [] { WithoutAbsent(s[..|s| - 1], x); }
  }
}
