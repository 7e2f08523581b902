/** The multi-producer channel: its critical sections, and conservation over every run. */
module AsyncChannel {
  import opened Wrappers

  type Value = string
  /** The number of an `async_receive` call, in call order. */
  type Ticket = nat

  /** A suspended receive: its id, and the call it belongs to. */
  datatype Waiter = Waiter(id: nat, ticket: Ticket)

  datatype Chan = Chan(values: seq<Value>, waiters: seq<Waiter>, nextId: nat, closed: bool)

  const OPEN := Chan([], [], 0, false)

  datatype Pushed = Rejected | Stored | HandedTo(waiter: Waiter)
  datatype Received = Now(value: Option<Value>) | Waiting

  function PushStep(c: Chan, v: Value): (Chan, Pushed) {
    if c.closed then (c, Rejected)
    else if c.waiters == [] then (c.(values := c.values + [v]), Stored)
    else (c.(waiters := c.waiters[1..]), HandedTo(c.waiters[0]))
  }

  function Excess(c: Chan, max: nat): nat {
    if |c.values| > max then |c.values| - max else 0
  }

  /** The state after trimming; the first `Excess` values are dropped. */
  function TrimStep(c: Chan, max: nat): Chan {
    c.(values := c.values[Excess(c, max)..])
  }

  /** The state after closing; all waiters complete with nothing. */
  function CloseStep(c: Chan): Chan {
    c.(closed := true, waiters := [])
  }

  function ReceiveStep(c: Chan, ticket: Ticket): (Chan, Received) {
    if c.values != [] then (c.(values := c.values[1..]), Now(Some(c.values[0])))
    else if c.closed then (c, Now(None))
    else (c.(waiters := c.waiters + [Waiter(c.nextId, ticket)], nextId := c.nextId + 1), Waiting)
  }

  /** The position of the waiter with an id. */
  function IndexOf(ws: seq<Waiter>, id: nat): (r: Option<nat>)
    ensures r.Some? ==> r.value < |ws| && ws[r.value].id == id
    ensures r.None? ==> forall i | 0 <= i < |ws| :: ws[i].id != id
  {
    if ws == [] then None
    else if ws[0].id == id then Some(0)
    else
      match IndexOf(ws[1..], id)
      case None => None
      case Some(i) => Some(i + 1)
  }

  function CancelStep(c: Chan, id: nat): (Chan, Option<Waiter>) {
    match IndexOf(c.waiters, id)
    case None => (c, None)
    case Some(i) => (c.(waiters := c.waiters[..i] + c.waiters[i + 1..]), Some(c.waiters[i]))
  }

  /** The channel's own state; completions happen after its mutex is released, so methods hand the
      waiters to be completed back to the caller. */
  class AsyncChannel {
    var values: seq<Value>
    var waiters: seq<Waiter>
    var nextId: nat
    var closed: bool

    function View(): Chan
      reads this
    {
      Chan(values, waiters, nextId, closed)
    }

    constructor ()
      ensures View() == OPEN
    {
      values, waiters, nextId, closed := [], [], 0, false;
    }

    method Push(v: Value) returns (r: Pushed)
      modifies this
      ensures (View(), r) == PushStep(old(View()), v)
    {
      if closed { return Rejected; }
      if waiters == [] {
        values := values + [v];
        return Stored;
      }
      r := HandedTo(waiters[0]);
      waiters := waiters[1..];
    }

    method Trim(max: nat) returns (dropped: nat)
      modifies this
      ensures View() == TrimStep(old(View()), max) && dropped == Excess(old(View()), max)
    {
      dropped := 0;
      while |values| > max
        invariant dropped <= |old(values)| && values == old(values)[dropped..]
        invariant dropped <= Excess(old(View()), max)
        invariant waiters == old(waiters) && nextId == old(nextId) && closed == old(closed)
        decreases |values|
      {
        values := values[1..];
        dropped := dropped + 1;
      }
    }

    method Close() returns (completed: seq<Waiter>)
      modifies this
      ensures View() == CloseStep(old(View())) && completed == old(waiters)
    {
      closed := true;
      completed := waiters;
      waiters := [];
    }

    method AsyncReceive(ticket: Ticket) returns (r: Received)
      modifies this
      ensures (View(), r) == ReceiveStep(old(View()), ticket)
    {
      if values != [] {
        r := Now(Some(values[0]));
        values := values[1..];
        return;
      }
      if closed { return Now(None); }
      waiters := waiters + [Waiter(nextId, ticket)];
      nextId := nextId + 1;
      return Waiting;
    }

    method Cancel(id: nat) returns (w: Option<Waiter>)
      modifies this
      ensures (View(), w) == CancelStep(old(View()), id)
    {
      var i := 0;
      while i < |waiters|
        invariant i <= |waiters| && View() == old(View())
        invariant IndexOf(waiters, id) ==
                  match IndexOf(waiters[i..], id) case None => None case Some(k) => Some(i + k)
      {
        if waiters[i].id == id {
          w := Some(waiters[i]);
          waiters := waiters[..i] + waiters[i + 1..];
          return;
        }
        i := i + 1;
      }
      return None;
    }
  }

  // ---- Whole runs --------------------------------------------------------------------------

  /** A value leaves the channel for a receive, or is trimmed away. */
  datatype Removal = To(ticket: Ticket, value: Value) | Trimmed(value: Value)

  /** The channel with its history. `owed` are receives taken out of the channel whose handler has not
      been called yet; `completed` are those whose handler has been called, with what it was given. */
  datatype System = System(
    chan: Chan,
    accepted: seq<Value>,
    removals: seq<Removal>,
    issued: nat,
    owed: map<Ticket, Option<Value>>,
    completed: map<Ticket, Option<Value>>)

  datatype Action = Push(v: Value) | Trim(max: nat) | Close | Receive | Cancel(id: nat) | Complete(ticket: Ticket)

  const INIT := System(OPEN, [], [], 0, map[], map[])

  predicate Enabled(s: System, a: Action) {
    a.Complete? ==> a.ticket in s.owed
  }

  function TrimmedAll(values: seq<Value>): seq<Removal> {
    seq(|values|, i requires 0 <= i < |values| => Trimmed(values[i]))
  }

  function Apply(s: System, a: Action): System
    requires Enabled(s, a)
  {
    match a
    case Push(v) =>
      var (c, r) := PushStep(s.chan, v);
      (match r
       case Rejected => s
       case Stored => s.(chan := c, accepted := s.accepted + [v])
       case HandedTo(w) =>
         s.(chan := c, accepted := s.accepted + [v], removals := s.removals + [To(w.ticket, v)],
            owed := s.owed[w.ticket := Some(v)]))
    case Trim(max) =>
      s.(chan := TrimStep(s.chan, max),
         removals := s.removals + TrimmedAll(s.chan.values[..Excess(s.chan, max)]))
    case Close =>
      s.(chan := CloseStep(s.chan), owed := s.owed + map w <- s.chan.waiters :: w.ticket := None)
    case Receive =>
      var (c, r) := ReceiveStep(s.chan, s.issued);
      var s1 := s.(chan := c, issued := s.issued + 1);
      (match r
       case Waiting => s1
       case Now(None) => s1.(owed := s.owed[s.issued := None])
       case Now(Some(v)) =>
         s1.(owed := s.owed[s.issued := Some(v)], removals := s.removals + [To(s.issued, v)]))
    case Cancel(id) =>
      var (c, w) := CancelStep(s.chan, id);
      (match w
       case None => s
       case Some(x) => s.(chan := c, owed := s.owed[x.ticket := None]))
    case Complete(t) =>
      s.(owed := s.owed - {t}, completed := s.completed[t := s.owed[t]])
  }

  function Values(rs: seq<Removal>): seq<Value> {
    seq(|rs|, i requires 0 <= i < |rs| => rs[i].value)
  }

  predicate Waits(c: Chan, t: Ticket) {
    exists w <- c.waiters :: w.ticket == t
  }

  /** The handler of `t` has been, or will be, given exactly `v`. */
  predicate Given(s: System, t: Ticket, v: Option<Value>) {
    (t in s.owed && s.owed[t] == v) || (t in s.completed && s.completed[t] == v)
  }

  ghost predicate ChanInv(c: Chan, issued: nat) {
    (c.values != [] || c.closed ==> c.waiters == []) &&
    InOrder(c.waiters) && (forall w <- c.waiters :: w.id < c.nextId && w.ticket < issued)
  }

  /** Waiters stand in the order of their ids and of their calls. */
  ghost predicate InOrder(ws: seq<Waiter>) {
    forall i, j | 0 <= i < j < |ws| :: ws[i].id < ws[j].id && ws[i].ticket < ws[j].ticket
  }

  /** Every receive is waiting, owed or completed: exactly one of the three. */
  ghost predicate TicketInv(s: System) {
    (forall t: Ticket :: t < s.issued <==> t in s.owed || t in s.completed || Waits(s.chan, t)) &&
    (forall t: Ticket | Waits(s.chan, t) :: t !in s.owed && t !in s.completed) &&
    (forall t <- s.owed :: t !in s.completed)
  }

  /** Values go to receives one to one. */
  ghost predicate DeliveryInv(s: System) {
    (forall r <- s.removals | r.To? :: Given(s, r.ticket, Some(r.value))) &&
    (forall i, j | 0 <= i < j < |s.removals| ::
       s.removals[i].To? && s.removals[j].To? ==> s.removals[i].ticket != s.removals[j].ticket) &&
    (forall t: Ticket, v: Value | Given(s, t, Some(v)) :: To(t, v) in s.removals)
  }

  ghost predicate Inv(s: System) {
    s.accepted == Values(s.removals) + s.chan.values &&
    ChanInv(s.chan, s.issued) && TicketInv(s) && DeliveryInv(s)
  }

  /** A receive not heard of before is given a value that leaves the channel. */
  lemma DeliverKeeps(s: System, s1: System, t: Ticket, v: Value)
    requires DeliveryInv(s) && t !in s.owed && t !in s.completed
    requires s1.removals == s.removals + [To(t, v)] && s1.owed == s.owed[t := Some(v)] && s1.completed == s.completed
    ensures DeliveryInv(s1)
  {
    forall r <- s1.removals | r.To? ensures Given(s1, r.ticket, Some(r.value)) {
      if r in s.removals { assert Given(s, r.ticket, Some(r.value)); }
    }
    forall x: Ticket, w: Value | Given(s1, x, Some(w)) ensures To(x, w) in s1.removals {
      if x != t { assert Given(s, x, Some(w)); }
    }
    forall i, j | 0 <= i < j < |s1.removals|
      ensures s1.removals[i].To? && s1.removals[j].To? ==> s1.removals[i].ticket != s1.removals[j].ticket
    {
      assert s1.removals[i] == s.removals[i];
      if s1.removals[i].To? { assert Given(s, s.removals[i].ticket, Some(s.removals[i].value)); }
    }
  }

  /** Receives not heard of before end with nothing, or values are trimmed: deliveries are the same. */
  lemma NoDeliveryKeeps(s: System, s1: System, trimmed: seq<Value>)
    requires DeliveryInv(s)
    requires s1.removals == s.removals + TrimmedAll(trimmed) && s1.completed == s.completed
    requires forall t <- s.owed :: t in s1.owed && s1.owed[t] == s.owed[t]
    requires forall t <- s1.owed | t !in s.owed :: s1.owed[t] == None
    ensures DeliveryInv(s1)
  {
    forall r <- s1.removals | r.To? ensures Given(s1, r.ticket, Some(r.value)) {
      assert r in s.removals;
    }
    forall x: Ticket, w: Value | Given(s1, x, Some(w)) ensures To(x, w) in s1.removals {
      assert Given(s, x, Some(w));
    }
  }

  /** The waiters' order, one step at a time. */
  lemma OrderStep(s: System, a: Action)
    requires Inv(s) && Enabled(s, a)
    ensures ChanInv(Apply(s, a).chan, Apply(s, a).issued)
  {
    hide TicketInv, DeliveryInv, Values, InOrder, IndexOf;
    match a
    case Push(_) => if s.chan.waiters != [] { OrderWithout(s.chan.waiters, 0); }
    case Receive => OrderWithNew(s.chan.waiters, Waiter(s.chan.nextId, s.issued));
    case Close => OrderOfNone();
    case Cancel(id) =>
      var i := IndexOf(s.chan.waiters, id);
      if i.Some? { OrderWithout(s.chan.waiters, i.value); }
    case _ =>
  }

  lemma OrderOfNone()
    ensures InOrder([])
  {
  }

  lemma OrderWithNew(ws: seq<Waiter>, w: Waiter)
    requires InOrder(ws) && forall x <- ws :: x.id < w.id && x.ticket < w.ticket
    ensures InOrder(ws + [w])
  {
  }

  lemma OrderWithout(ws: seq<Waiter>, i: nat)
    requires InOrder(ws) && i < |ws|
    ensures InOrder(ws[..i] + ws[i + 1..])
    ensures i == 0 ==> ws[..i] + ws[i + 1..] == ws[1..]
    ensures forall w <- ws[..i] + ws[i + 1..] :: w in ws
  {
  }

  lemma ValuesConcat(a: seq<Removal>, b: seq<Removal>)
    ensures Values(a + b) == Values(a) + Values(b)
  {
  }

  ghost predicate Conserves(s: System) {
    s.accepted == Values(s.removals) + s.chan.values
  }

  lemma QueuePush(s: System, v: Value)
    requires Inv(s)
    ensures Conserves(Apply(s, Push(v)))
  {
    hide TicketInv, DeliveryInv, IndexOf, Values;
    if !s.chan.closed && s.chan.waiters != [] {
      var w := s.chan.waiters[0];
      assert w in s.chan.waiters && s.chan.values == [];
      ValuesConcat(s.removals, [To(w.ticket, v)]);
      OneValue(w.ticket, v);
    }
  }

  lemma OneValue(t: Ticket, v: Value)
    ensures Values([To(t, v)]) == [v]
  {
  }

  lemma TrimmedValues(vs: seq<Value>)
    ensures Values(TrimmedAll(vs)) == vs
  {
  }

  lemma QueueTrim(s: System, max: nat)
    requires Inv(s)
    ensures Conserves(Apply(s, Trim(max)))
  {
    hide TicketInv, DeliveryInv, IndexOf, Values, TrimmedAll;
    var k := Excess(s.chan, max);
    ValuesConcat(s.removals, TrimmedAll(s.chan.values[..k]));
    TrimmedValues(s.chan.values[..k]);
    assert s.chan.values == s.chan.values[..k] + s.chan.values[k..];
  }

  lemma QueueReceive(s: System)
    requires Inv(s)
    ensures Conserves(Apply(s, Receive))
  {
    hide TicketInv, DeliveryInv, IndexOf, Values;
    if s.chan.values != [] {
      var v := s.chan.values[0];
      ValuesConcat(s.removals, [To(s.issued, v)]);
      OneValue(s.issued, v);
      assert s.chan.values == [v] + s.chan.values[1..];
    }
  }

  /** Conservation, one step at a time. */
  lemma QueueStep(s: System, a: Action)
    requires Inv(s) && Enabled(s, a)
    ensures Conserves(Apply(s, a))
  {
    hide TicketInv, DeliveryInv, IndexOf, Values;
    match a
    case Push(v) =>
      QueuePush(s, v);
    case Trim(max) =>
      QueueTrim(s, max);
    case Receive =>
      QueueReceive(s);
    case _ =>
  }

  /** Only receives of this step start, and each is waiting or owed but not both. */
  lemma TicketsMove(s: System, s1: System)
    requires TicketInv(s) && s1.completed == s.completed && s.issued <= s1.issued
    requires forall t: Ticket :: t in s1.owed || Waits(s1.chan, t) <==>
               t in s.owed || Waits(s.chan, t) || s.issued <= t < s1.issued
    requires forall t: Ticket | Waits(s1.chan, t) :: t !in s1.owed
    ensures TicketInv(s1)
  {
  }

  lemma PushTickets(s: System, v: Value)
    requires Inv(s)
    ensures TicketInv(Apply(s, Push(v)))
  {
    hide DeliveryInv;
    var s1 := Apply(s, Push(v));
    if s.chan.closed || s.chan.waiters == [] {
      assert forall t: Ticket :: Waits(s1.chan, t) == Waits(s.chan, t);
    } else {
      WaiterLeaves(s.chan, s1.chan, 0, s.issued);
      TicketsMove(s, s1);
    }
  }

  /** Taking the waiter at `i` out leaves exactly the others waiting. */
  lemma WaiterLeaves(c: Chan, c1: Chan, i: nat, issued: nat)
    requires ChanInv(c, issued) && i < |c.waiters| && c1.waiters == c.waiters[..i] + c.waiters[i + 1..]
    ensures Waits(c, c.waiters[i].ticket)
    ensures forall t: Ticket :: Waits(c1, t) <==> Waits(c, t) && t != c.waiters[i].ticket
  {
    var x := c.waiters[i];
    assert x in c.waiters;
    hide InOrder;
    forall t: Ticket ensures Waits(c1, t) <==> Waits(c, t) && t != x.ticket {
      if Waits(c, t) && t != x.ticket {
        var w :| w in c.waiters && w.ticket == t;
        assert w in c1.waiters;
      }
      if Waits(c1, t) {
        var w :| w in c1.waiters && w.ticket == t;
        assert w in c.waiters;
      }
    }
  }

  lemma ReceiveTickets(s: System)
    requires Inv(s)
    ensures TicketInv(Apply(s, Receive))
  {
    hide DeliveryInv;
    var s1 := Apply(s, Receive);
    var (_, r) := ReceiveStep(s.chan, s.issued);
    if r.Waiting? {
      var w := Waiter(s.chan.nextId, s.issued);
      forall t: Ticket ensures Waits(s1.chan, t) <==> t == s.issued || Waits(s.chan, t) {
        if t == s.issued { assert w in s1.chan.waiters; }
        if Waits(s.chan, t) { var x :| x in s.chan.waiters && x.ticket == t; assert x in s1.chan.waiters; }
      }
    } else {
      assert forall t: Ticket :: Waits(s1.chan, t) == Waits(s.chan, t);
    }
    TicketsMove(s, s1);
  }

  lemma TicketStep(s: System, a: Action)
    requires Inv(s) && Enabled(s, a)
    ensures TicketInv(Apply(s, a))
  {
    hide DeliveryInv;
    var s1 := Apply(s, a);
    match a
    case Push(v) => PushTickets(s, v);
    case Receive => ReceiveTickets(s);
    case Trim(_) => assert forall t: Ticket :: Waits(s1.chan, t) == Waits(s.chan, t);
    case Complete(_) => assert forall t: Ticket :: Waits(s1.chan, t) == Waits(s.chan, t);
    case Close =>
      assert forall w <- s.chan.waiters :: Waits(s.chan, w.ticket);
      TicketsMove(s, s1);
    case Cancel(id) =>
      var i := IndexOf(s.chan.waiters, id);
      if i.Some? {
        WaiterLeaves(s.chan, s1.chan, i.value, s.issued);
        TicketsMove(s, s1);
      }
  }

  lemma DeliveryStep(s: System, a: Action)
    requires Inv(s) && Enabled(s, a)
    ensures DeliveryInv(Apply(s, a))
  {
    hide DeliveryInv;
    var s1 := Apply(s, a);
    assert s.removals == s.removals + TrimmedAll([]);
    match a
    case Push(v) =>
      if !s.chan.closed && s.chan.waiters != [] {
        assert s.chan.waiters[0] in s.chan.waiters && Waits(s.chan, s.chan.waiters[0].ticket);
        DeliverKeeps(s, s1, s.chan.waiters[0].ticket, v);
      } else {
        NoDeliveryKeeps(s, s1, []);
      }
    case Receive =>
      if s.chan.values != [] {
        DeliverKeeps(s, s1, s.issued, s.chan.values[0]);
      } else {
        NoDeliveryKeeps(s, s1, []);
      }
    case Trim(max) => NoDeliveryKeeps(s, s1, s.chan.values[..Excess(s.chan, max)]);
    case Close =>
      assert forall w <- s.chan.waiters :: Waits(s.chan, w.ticket);
      NoDeliveryKeeps(s, s1, []);
    case Cancel(id) =>
      var i := IndexOf(s.chan.waiters, id);
      if i.Some? {
        assert s.chan.waiters[i.value] in s.chan.waiters && Waits(s.chan, s.chan.waiters[i.value].ticket);
      }
      NoDeliveryKeeps(s, s1, []);
    case Complete(t) => CompletionKeeps(s, t);
  }

  lemma CompletionKeeps(s: System, t: Ticket)
    requires DeliveryInv(s) && t in s.owed && t !in s.completed
    ensures DeliveryInv(Apply(s, Complete(t)))
  {
    var s1 := Apply(s, Complete(t));
    assert forall x: Ticket, v: Option<Value> :: Given(s1, x, v) <==> Given(s, x, v);
  }

  lemma StepKeepsInv(s: System, a: Action)
    requires Inv(s) && Enabled(s, a)
    ensures Inv(Apply(s, a))
  {
    hide TicketInv, DeliveryInv, ChanInv, Apply;
    OrderStep(s, a);
    QueueStep(s, a);
    TicketStep(s, a);
    DeliveryStep(s, a);
  }

  function Run(s: System, actions: seq<Action>): Option<System>
    decreases |actions|
  {
    if actions == [] then Some(s)
    else if !Enabled(s, actions[0]) then None
    else Run(Apply(s, actions[0]), actions[1..])
  }

  lemma {:induction false} RunKeepsInv(s: System, actions: seq<Action>)
    requires Inv(s) && Run(s, actions).Some?
    ensures Inv(Run(s, actions).value)
    decreases |actions|
  {
    if actions != [] {
      StepKeepsInv(s, actions[0]);
      RunKeepsInv(Apply(s, actions[0]), actions[1..]);
    }
  }

  /** What a completed receive was given never changes: its handler is called once. */
  lemma {:induction false} CompletedOnce(s: System, actions: seq<Action>, t: Ticket)
    requires Inv(s) && Run(s, actions).Some? && t in s.completed
    ensures var s1 := Run(s, actions).value;
            t in s1.completed && s1.completed[t] == s.completed[t] && t !in s1.owed && !Waits(s1.chan, t)
    decreases |actions|
  {
    hide DeliveryInv;
    if actions != [] {
      StepKeepsInv(s, actions[0]);
      CompletedStays(s, actions[0], t);
      CompletedOnce(Apply(s, actions[0]), actions[1..], t);
    }
  }

  lemma CompletedStays(s: System, a: Action, t: Ticket)
    requires Inv(s) && Enabled(s, a) && t in s.completed
    ensures t in Apply(s, a).completed && Apply(s, a).completed[t] == s.completed[t]
  {
    hide DeliveryInv;
  }

  /** Conservation over every run: the accepted values, in order, are those that left the channel,
      delivered or trimmed, followed by the queue. A value that was delivered went to one receive,
      and a receive was given at most one value. Nobody waits while a value is queued or once the
      channel is closed, and the waiters stand in the order of their ids and of their calls. */
  lemma Conservation(actions: seq<Action>)
    requires Run(INIT, actions).Some?
    ensures var s := Run(INIT, actions).value;
            s.accepted == Values(s.removals) + s.chan.values &&
            (s.chan.values != [] || s.chan.closed ==> s.chan.waiters == []) &&
            InOrder(s.chan.waiters) &&
            (forall t: Ticket, v: Value :: To(t, v) in s.removals <==> Given(s, t, Some(v))) &&
            (forall i, j | 0 <= i < j < |s.removals| ::
               s.removals[i].To? && s.removals[j].To? ==> s.removals[i].ticket != s.removals[j].ticket) &&
            (forall t: Ticket :: t < s.issued <==> t in s.owed || t in s.completed || Waits(s.chan, t))
  {
    assert Inv(INIT);
    RunKeepsInv(INIT, actions);
  }

  /** The next push goes to the waiter that has waited longest. */
  lemma ServedInIdOrder(actions: seq<Action>, v: Value)
    requires Run(INIT, actions).Some?
    ensures var (_, r) := PushStep(Run(INIT, actions).value.chan, v);
            r.HandedTo? ==> forall w <- Run(INIT, actions).value.chan.waiters :: r.waiter.id <= w.id
  {
    assert Inv(INIT);
    RunKeepsInv(INIT, actions);
    var c := Run(INIT, actions).value.chan;
    forall w <- c.waiters | !c.closed && c.waiters != [] ensures c.waiters[0].id <= w.id {
      var i :| 0 <= i < |c.waiters| && c.waiters[i] == w;
      if i > 0 { assert c.waiters[0].id < c.waiters[i].id; }
    }
  }
}
