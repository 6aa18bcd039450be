/** Replicated mode: a write lands locally and is sent, unordered, to every other live node. */
module Replicated {
  import opened Base

  /** A write in flight; no value means a delete. */
  datatype Msg = Msg(dest: string, key: string, val: Option<Bytes>)

  type Store = map<string, Bytes>

  datatype State = State(stores: map<string, Store>, flight: multiset<Msg>)

  datatype Event =
    | Write(node: string, key: string, val: Option<Bytes>)
    | Deliver(msg: Msg)

  function ValueOf(s: Store, k: string): (v: Option<Bytes>) {
    if k in s then Some(s[k]) else None
  }

  function Stored(s: Store, k: string, v: Option<Bytes>): (r: Store)
    ensures forall j :: ValueOf(r, j) == if j == k then v else ValueOf(s, j)
  {
    match v
    case Some(bytes) => s[k := bytes]
    case None => s - {k}
  }

  /** The fan-out of a write: one message to each other live node. */
  function FanOut(nodes: set<string>, node: string, k: string, v: Option<Bytes>): (m: multiset<Msg>) {
    multiset(set n | n in nodes && n != node :: Msg(n, k, v))
  }

  /** `distributedSet` and `distributedDelete` on the writer, `HandleSet` and `HandleDelete` on delivery. */
  function Step(s: State, ev: Event): (r: State)
    requires if ev.Write? then ev.node in s.stores else ev.msg.dest in s.stores
  {
    match ev
    case Write(n, k, v) =>
      State(s.stores[n := Stored(s.stores[n], k, v)], s.flight + FanOut(s.stores.Keys, n, k, v))
    case Deliver(m) =>
      State(s.stores[m.dest := Stored(s.stores[m.dest], m.key, m.val)], s.flight - multiset{m})
  }

  ghost predicate InFlight(s: State, k: string) {
    exists m :: m in s.flight && m.key == k
  }

  /** Node n, key k: the value it holds. */
  function At(s: State, n: string, k: string): (v: Option<Bytes>)
    requires n in s.stores
  {
    ValueOf(s.stores[n], k)
  }

  // ---- Runs ------------------------------------------------------------------------------------

  datatype History = History(nodes: set<string>, events: seq<Event>, states: seq<State>)
  {
    ghost predicate Enabled(j: nat)
      requires j < |events| && j < |states|
    {
      match events[j]
      case Write(n, _, _) => n in nodes
      case Deliver(m) => m in states[j].flight && m.dest in nodes
    }

    ghost predicate Taken(j: nat)
      requires j < |events| && |states| == |events| + 1
    {
      states[j].stores.Keys == nodes && Enabled(j) && states[j + 1] == Step(states[j], events[j])
    }

    /** A run from empty stores: messages are delivered once each, in any order, and none is lost. */
    ghost predicate IsRun() {
      && |states| == |events| + 1
      && states[0] == State(map n | n in nodes :: map[], multiset{})
      && forall j: nat {:trigger Taken(j)} :: j < |events| ==> Taken(j)
    }

    /** Each write to a key is issued only when none for that key is in flight. */
    ghost predicate Quiet()
      requires |states| == |events| + 1
    {
      forall j :: 0 <= j < |events| && events[j].Write? ==> !InFlight(states[j], events[j].key)
    }

    /** The value of the last write to k among the first j events; nothing before the first. */
    function Last(k: string, j: nat): (v: Option<Bytes>)
      requires j <= |events|
    {
      if j == 0 then None
      else if events[j - 1].Write? && events[j - 1].key == k then events[j - 1].val
      else Last(k, j - 1)
    }

    /** The value of the write before the last. */
    function Previous(k: string, j: nat): (v: Option<Bytes>)
      requires j <= |events|
    {
      if j == 0 then None
      else if events[j - 1].Write? && events[j - 1].key == k then Last(k, j - 1)
      else Previous(k, j - 1)
    }
  }

  /** Every message in flight for k carries the last write, once per node; a node still waiting for its
      message holds the previous write, any other the last. */
  ghost predicate Settling(s: State, nodes: set<string>, k: string, last: Option<Bytes>, previous: Option<Bytes>) {
    && s.stores.Keys == nodes
    && (forall m :: m in s.flight && m.key == k ==> m.val == last && s.flight[m] == 1 && m.dest in nodes)
    && (forall n :: n in nodes ==> At(s, n, k) == if Msg(n, k, last) in s.flight then previous else last)
  }

  lemma FanOutMembers(nodes: set<string>, node: string, k: string, v: Option<Bytes>, m: Msg)
    ensures FanOut(nodes, node, k, v)[m]
         == if m.dest in nodes && m.dest != node && m.key == k && m.val == v then 1 else 0
  {
    var s := set n | n in nodes && n != node :: Msg(n, k, v);
    assert m in s <==> m.dest in nodes && m.dest != node && m == Msg(m.dest, k, v);
  }

  lemma WriteFlight(s: State, n: string, k: string, v: Option<Bytes>, m: Msg)
    requires n in s.stores
    ensures Step(s, Write(n, k, v)).flight[m]
         == s.flight[m] + if m.dest in s.stores && m.dest != n && m.key == k && m.val == v then 1 else 0
  {
    FanOutMembers(s.stores.Keys, n, k, v, m);
  }

  /** A write issued while nothing is in flight for its key. */
  lemma WriteSettles(s: State, nodes: set<string>, n: string, k: string, v: Option<Bytes>,
                     last: Option<Bytes>, previous: Option<Bytes>)
    requires Settling(s, nodes, k, last, previous) && n in nodes && !InFlight(s, k)
    ensures Settling(Step(s, Write(n, k, v)), nodes, k, v, last)
  {
    var r := Step(s, Write(n, k, v));
    forall m: Msg | m.key == k
      ensures r.flight[m] == if m.dest in nodes && m.dest != n && m.val == v then 1 else 0
    {
      assert m !in s.flight;
      WriteFlight(s, n, k, v, m);
    }
    forall m | m in nodes
      ensures At(r, m, k) == if Msg(m, k, v) in r.flight then last else v
    {
      assert Msg(m, k, last) !in s.flight;
      assert r.flight[Msg(m, k, v)] == if m != n then 1 else 0;
    }
  }

  lemma OtherWriteSettles(s: State, nodes: set<string>, n: string, j: string, v: Option<Bytes>,
                          k: string, last: Option<Bytes>, previous: Option<Bytes>)
    requires Settling(s, nodes, k, last, previous) && n in nodes && j != k
    ensures Settling(Step(s, Write(n, j, v)), nodes, k, last, previous)
  {
    var r := Step(s, Write(n, j, v));
    forall m: Msg | m.key == k
      ensures r.flight[m] == s.flight[m]
    {
      WriteFlight(s, n, j, v, m);
    }
    forall m | m in nodes
      ensures At(r, m, k) == At(s, m, k)
      ensures Msg(m, k, last) in r.flight <==> Msg(m, k, last) in s.flight
    {
      assert r.flight[Msg(m, k, last)] == s.flight[Msg(m, k, last)];
    }
  }

  lemma DeliverySettles(s: State, nodes: set<string>, m: Msg, k: string, last: Option<Bytes>, previous: Option<Bytes>)
    requires Settling(s, nodes, k, last, previous) && m in s.flight && m.dest in nodes
    ensures Settling(Step(s, Deliver(m)), nodes, k, last, previous)
  {
    var r := Step(s, Deliver(m));
    forall n | n in nodes
      ensures At(r, n, k) == if Msg(n, k, last) in r.flight then previous else last
    {
      assert At(s, n, k) == if Msg(n, k, last) in s.flight then previous else last;
    }
  }

  lemma SettlesStep(h: History, k: string, j: nat, last: Option<Bytes>, previous: Option<Bytes>)
    requires h.IsRun() && h.Quiet() && j < |h.events|
    requires Settling(h.states[j], h.nodes, k, last, previous)
    ensures if h.events[j].Write? && h.events[j].key == k
            then Settling(h.states[j + 1], h.nodes, k, h.events[j].val, last)
            else Settling(h.states[j + 1], h.nodes, k, last, previous)
  {
    assert h.Taken(j);
    match h.events[j]
    case Write(n, key, v) =>
      if key == k {
        WriteSettles(h.states[j], h.nodes, n, k, v, last, previous);
      } else {
        OtherWriteSettles(h.states[j], h.nodes, n, key, v, k, last, previous);
      }
    case Deliver(m) => DeliverySettles(h.states[j], h.nodes, m, k, last, previous);
  }

  lemma {:induction false} RunSettles(h: History, k: string, j: nat)
    requires h.IsRun() && h.Quiet() && j <= |h.events|
    ensures Settling(h.states[j], h.nodes, k, h.Last(k, j), h.Previous(k, j))
  {
    if j > 0 {
      RunSettles(h, k, j - 1);
      SettlesStep(h, k, j - 1, h.Last(k, j - 1), h.Previous(k, j - 1));
    }
  }

  /** Convergence, for every delivery order: at any moment each node holds the last or the previous write of a
      key, and once no message for the key is in flight all hold the last. */
  lemma Converges(h: History, k: string, j: nat, n: string)
    requires h.IsRun() && h.Quiet() && j <= |h.events| && n in h.nodes
    ensures n in h.states[j].stores
    ensures At(h.states[j], n, k) == h.Last(k, j) || At(h.states[j], n, k) == h.Previous(k, j)
    ensures !InFlight(h.states[j], k) ==> At(h.states[j], n, k) == h.Last(k, j)
  {
    RunSettles(h, k, j);
  }

  // ---- The condition is needed -----------------------------------------------------------------

  /** Deliver these messages one after another. */
  ghost function DeliverAll(s: State, msgs: seq<Msg>): (r: State)
    requires forall i :: 0 <= i < |msgs| ==> msgs[i].dest in s.stores
    ensures r.stores.Keys == s.stores.Keys
    decreases |msgs|
  {
    if msgs == [] then s else DeliverAll(Step(s, Deliver(msgs[0])), msgs[1..])
  }

  /** Every message of the order is in flight when its turn comes. */
  ghost predicate Deliverable(s: State, msgs: seq<Msg>) {
    multiset(msgs) <= s.flight && forall i :: 0 <= i < |msgs| ==> msgs[i].dest in s.stores
  }

  lemma DeliverableTail(s: State, msgs: seq<Msg>)
    requires Deliverable(s, msgs) && msgs != []
    ensures msgs[0] in s.flight && Deliverable(Step(s, Deliver(msgs[0])), msgs[1..])
    ensures multiset(msgs) == multiset{msgs[0]} + multiset(msgs[1..])
  {
    assert msgs == [msgs[0]] + msgs[1..];
    assert msgs[0] in multiset(msgs);
  }

  lemma {:induction false} DeliveredFlight(s: State, msgs: seq<Msg>)
    requires Deliverable(s, msgs)
    ensures DeliverAll(s, msgs).flight == s.flight - multiset(msgs)
    decreases |msgs|
  {
    if msgs != [] {
      DeliverableTail(s, msgs);
      DeliveredFlight(Step(s, Deliver(msgs[0])), msgs[1..]);
    }
  }

  /** A node not addressed about k keeps its value of k. */
  lemma {:induction false} UntouchedValue(s: State, msgs: seq<Msg>, n: string, k: string)
    requires n in s.stores && forall i :: 0 <= i < |msgs| ==> msgs[i].dest in s.stores
    requires forall i :: 0 <= i < |msgs| ==> !(msgs[i].dest == n && msgs[i].key == k)
    ensures At(DeliverAll(s, msgs), n, k) == At(s, n, k)
    decreases |msgs|
  {
    if msgs != [] {
      UntouchedValue(Step(s, Deliver(msgs[0])), msgs[1..], n, k);
    }
  }

  lemma {:induction false} DeliverSnoc(s: State, msgs: seq<Msg>, m: Msg)
    requires forall i :: 0 <= i < |msgs| ==> msgs[i].dest in s.stores
    requires m.dest in s.stores
    ensures forall i :: 0 <= i < |msgs + [m]| ==> (msgs + [m])[i].dest in s.stores
    ensures DeliverAll(s, msgs + [m]) == Step(DeliverAll(s, msgs), Deliver(m))
    decreases |msgs|
  {
    if msgs == [] {
      assert [] + [m] == [m] && [m][1..] == [];
      assert DeliverAll(Step(s, Deliver(m)), [m][1..]) == Step(s, Deliver(m));
    } else {
      assert (msgs + [m])[1..] == msgs[1..] + [m];
      DeliverSnoc(Step(s, Deliver(msgs[0])), msgs[1..], m);
    }
  }

  /** The messages for k in a multiset, in some order. */
  lemma {:induction false} ListMessages(ms: multiset<Msg>, k: string) returns (q: seq<Msg>)
    ensures forall m :: multiset(q)[m] == if m.key == k then ms[m] else 0
    decreases |ms|
  {
    if ms == multiset{} {
      q := [];
    } else {
      var m :| m in ms;
      q := ListMessages(ms - multiset{m}, k);
      if m.key == k {
        assert multiset(q + [m]) == multiset(q) + multiset{m};
        q := q + [m];
      }
    }
  }

  ghost predicate Agree(s: State, k: string) {
    forall a, b :: a in s.stores && b in s.stores ==> At(s, a, k) == At(s, b, k)
  }

  /** Whatever order drains the messages for k ends in agreement on k. */
  ghost predicate AlwaysConverges(s: State, k: string) {
    forall order {:trigger DeliverAll(s, order)} ::
      Deliverable(s, order) && !InFlight(DeliverAll(s, order), k) ==> Agree(DeliverAll(s, order), k)
  }

  /** An order that drains everything in flight for k and ends with these messages. */
  lemma DrainEndingWith(r: State, k: string, lates: seq<Msg>) returns (rest: seq<Msg>)
    requires multiset(lates) <= r.flight && forall i :: 0 <= i < |lates| ==> lates[i].key == k
    requires forall m :: m in r.flight && m.key == k ==> m.dest in r.stores
    ensures Deliverable(r, rest + lates)
    ensures forall m :: multiset(rest + lates)[m] == if m.key == k then r.flight[m] else 0
    ensures !InFlight(DeliverAll(r, rest + lates), k)
  {
    rest := ListMessages(r.flight - multiset(lates), k);
    var order := rest + lates;
    CountsAddUp(r.flight, k, rest, lates);
    forall i | 0 <= i < |order|
      ensures order[i].dest in r.stores
    {
      assert order[i] in multiset(order);
    }
    DeliveredFlight(r, order);
  }

  lemma CountsAddUp(ms: multiset<Msg>, k: string, rest: seq<Msg>, lates: seq<Msg>)
    requires multiset(lates) <= ms && forall i :: 0 <= i < |lates| ==> lates[i].key == k
    requires forall m :: multiset(rest)[m] == if m.key == k then (ms - multiset(lates))[m] else 0
    ensures forall m :: multiset(rest + lates)[m] == if m.key == k then ms[m] else 0
    ensures multiset(rest + lates) <= ms
  {
    assert multiset(rest + lates) == multiset(rest) + multiset(lates);
    forall m
      ensures multiset(rest + lates)[m] == if m.key == k then ms[m] else 0
    {
      if m.key != k {
        assert m !in lates;
        assert m !in multiset(lates);
      }
    }
  }

  /** The last message delivered decides at its receiver; elsewhere it changes nothing. */
  lemma LastDelivered(s: State, msgs: seq<Msg>, m: Msg, n: string, k: string)
    requires forall i :: 0 <= i < |msgs| ==> msgs[i].dest in s.stores
    requires m.dest in s.stores && n in s.stores
    ensures forall i :: 0 <= i < |msgs + [m]| ==> (msgs + [m])[i].dest in s.stores
    ensures At(DeliverAll(s, msgs + [m]), n, k)
         == if m.dest == n && m.key == k then m.val else At(DeliverAll(s, msgs), n, k)
  {
    DeliverSnoc(s, msgs, m);
  }

  /** Of two last messages for different nodes each decides at its own. */
  lemma TwoDelivered(s: State, rest: seq<Msg>, x: Msg, y: Msg)
    requires forall i :: 0 <= i < |rest + [x, y]| ==> (rest + [x, y])[i].dest in s.stores
    requires x.key == y.key && x.dest != y.dest
    requires x.dest in s.stores && y.dest in s.stores
    ensures At(DeliverAll(s, rest + [x, y]), x.dest, x.key) == x.val
    ensures At(DeliverAll(s, rest + [x, y]), y.dest, x.key) == y.val
  {
    assert rest + [x, y] == (rest + [x]) + [y];
    assert forall i :: 0 <= i < |rest| ==> rest[i] == (rest + [x, y])[i];
    LastDelivered(s, rest, x, x.dest, x.key);
    LastDelivered(s, rest + [x], y, x.dest, x.key);
    LastDelivered(s, rest + [x], y, y.dest, x.key);
  }

  // ---- Exactly the states that converge --------------------------------------------------------

  /** Every message for k is addressed to a node of the cluster. */
  ghost predicate Addressed(s: State, k: string) {
    forall m :: m in s.flight && m.key == k ==> m.dest in s.stores
  }

  ghost predicate Awaits(s: State, n: string, k: string) {
    exists v :: Msg(n, k, v) in s.flight
  }

  /** Some delivery order leaves n with this value of k: one still on its way to n or, if there is none, its own. */
  ghost predicate MayEnd(s: State, n: string, k: string, v: Option<Bytes>)
    requires n in s.stores
  {
    if Awaits(s, n, k) then Msg(n, k, v) in s.flight else At(s, n, k) == v
  }

  /** A delivery only narrows down what may be. */
  lemma DeliveryNarrows(s: State, m: Msg, n: string, k: string, v: Option<Bytes>)
    requires m in s.flight && m.dest in s.stores && n in s.stores
    requires MayEnd(Step(s, Deliver(m)), n, k, v)
    ensures MayEnd(s, n, k, v)
  {
    var r := Step(s, Deliver(m));
    if m.dest == n && m.key == k {
      assert m == Msg(n, k, m.val);
    } else {
      assert forall u :: Msg(n, k, u) in r.flight <==> Msg(n, k, u) in s.flight;
    }
  }

  lemma {:induction false} DrainingNarrows(s: State, order: seq<Msg>, n: string, k: string, v: Option<Bytes>)
    requires Deliverable(s, order) && n in s.stores && MayEnd(DeliverAll(s, order), n, k, v)
    ensures MayEnd(s, n, k, v)
    decreases |order|
  {
    if order != [] {
      DeliverableTail(s, order);
      DrainingNarrows(Step(s, Deliver(order[0])), order[1..], n, k, v);
      DeliveryNarrows(s, order[0], n, k, v);
    }
  }

  lemma AwaitedIsInFlight(s: State, n: string, k: string)
    ensures Awaits(s, n, k) ==> InFlight(s, k)
  {
    if Awaits(s, n, k) {
      var v :| Msg(n, k, v) in s.flight;
      assert Msg(n, k, v).key == k;
    }
  }

  /** Once everything is delivered a node holds one of the values it might have ended with. */
  lemma EndsAsItMay(s: State, order: seq<Msg>, n: string, k: string)
    requires Deliverable(s, order) && n in s.stores && !InFlight(DeliverAll(s, order), k)
    ensures MayEnd(s, n, k, At(DeliverAll(s, order), n, k))
  {
    var r := DeliverAll(s, order);
    AwaitedIsInFlight(r, n, k);
    DrainingNarrows(s, order, n, k, At(r, n, k));
  }

  /** An order that drains k and ends with the chosen message, if there is one, at node n. */
  lemma EndOne(s: State, k: string, n: string, v: Option<Bytes>, other: string, w: Option<Bytes>)
    returns (order: seq<Msg>)
    requires Addressed(s, k) && n in s.stores && other in s.stores && n != other
    requires Msg(n, k, v) in s.flight && !Awaits(s, other, k) && At(s, other, k) == w
    ensures Deliverable(s, order) && !InFlight(DeliverAll(s, order), k)
    ensures At(DeliverAll(s, order), n, k) == v && At(DeliverAll(s, order), other, k) == w
  {
    var last := Msg(n, k, v);
    var rest := DrainEndingWith(s, k, [last]);
    order := rest + [last];
    NotAddressed(s, order, k, other);
    UntouchedValue(s, order, other, k);
    assert forall i :: 0 <= i < |rest| ==> rest[i] == order[i];
    LastDelivered(s, rest, last, n, k);
  }

  /** A drain of k brings nothing about k to a node that awaits nothing. */
  lemma NotAddressed(s: State, order: seq<Msg>, k: string, n: string)
    requires !Awaits(s, n, k) && forall m :: multiset(order)[m] == if m.key == k then s.flight[m] else 0
    ensures forall i :: 0 <= i < |order| ==> !(order[i].dest == n && order[i].key == k)
  {
    forall i | 0 <= i < |order|
      ensures !(order[i].dest == n && order[i].key == k)
    {
      var m := order[i];
      assert m in multiset(order);
      assert m == Msg(m.dest, m.key, m.val);
    }
  }

  lemma EndBoth(s: State, k: string, a: string, v: Option<Bytes>, b: string, w: Option<Bytes>)
    returns (order: seq<Msg>)
    requires Addressed(s, k) && a in s.stores && b in s.stores && a != b
    requires Msg(a, k, v) in s.flight && Msg(b, k, w) in s.flight
    ensures Deliverable(s, order) && !InFlight(DeliverAll(s, order), k)
    ensures At(DeliverAll(s, order), a, k) == v && At(DeliverAll(s, order), b, k) == w
  {
    var x, y := Msg(a, k, v), Msg(b, k, w);
    var rest := DrainEndingWith(s, k, [x, y]);
    order := rest + [x, y];
    TwoDelivered(s, rest, x, y);
  }

  lemma EndNone(s: State, k: string, a: string, b: string) returns (order: seq<Msg>)
    requires Addressed(s, k) && a in s.stores && b in s.stores && !Awaits(s, a, k) && !Awaits(s, b, k)
    ensures Deliverable(s, order) && !InFlight(DeliverAll(s, order), k)
    ensures At(DeliverAll(s, order), a, k) == At(s, a, k) && At(DeliverAll(s, order), b, k) == At(s, b, k)
  {
    var rest := DrainEndingWith(s, k, []);
    order := rest + [];
    NotAddressed(s, order, k, a);
    NotAddressed(s, order, k, b);
    UntouchedValue(s, order, a, k);
    UntouchedValue(s, order, b, k);
  }

  /** Two nodes can be brought to any values they may end with, both by the same order. */
  lemma EndTogether(s: State, k: string, a: string, v: Option<Bytes>, b: string, w: Option<Bytes>)
    returns (order: seq<Msg>)
    requires Addressed(s, k) && a in s.stores && b in s.stores && a != b
    requires MayEnd(s, a, k, v) && MayEnd(s, b, k, w)
    ensures Deliverable(s, order) && !InFlight(DeliverAll(s, order), k)
    ensures At(DeliverAll(s, order), a, k) == v && At(DeliverAll(s, order), b, k) == w
  {
    if Awaits(s, a, k) && Awaits(s, b, k) {
      order := EndBoth(s, k, a, v, b, w);
    } else if Awaits(s, a, k) {
      order := EndOne(s, k, a, v, b, w);
    } else if Awaits(s, b, k) {
      order := EndOne(s, k, b, w, a, v);
    } else {
      order := EndNone(s, k, a, b);
    }
  }

  /** No two nodes may end with different values. */
  ghost predicate OneEnd(s: State, k: string) {
    forall a, b, v, w ::
      a in s.stores && b in s.stores && a != b && MayEnd(s, a, k, v) && MayEnd(s, b, k, w) ==> v == w
  }

  /** Every delivery order ends in agreement on k exactly if no two nodes may end with different values. */
  lemma AlwaysConvergesIff(s: State, k: string)
    requires Addressed(s, k)
    ensures AlwaysConverges(s, k) <==> OneEnd(s, k)
  {
    if OneEnd(s, k) {
      forall order | Deliverable(s, order) && !InFlight(DeliverAll(s, order), k)
        ensures Agree(DeliverAll(s, order), k)
      {
        OneEndAgrees(s, k, order);
      }
    } else {
      var a, b, v, w :|
        a in s.stores && b in s.stores && a != b && MayEnd(s, a, k, v) && MayEnd(s, b, k, w) && v != w;
      var order := EndTogether(s, k, a, v, b, w);
      assert !Agree(DeliverAll(s, order), k);
    }
  }

  lemma OneEndAgrees(s: State, k: string, order: seq<Msg>)
    requires OneEnd(s, k) && Deliverable(s, order) && !InFlight(DeliverAll(s, order), k)
    ensures Agree(DeliverAll(s, order), k)
  {
    forall a, b | a in s.stores && b in s.stores
      ensures At(DeliverAll(s, order), a, k) == At(DeliverAll(s, order), b, k)
    {
      EndsAsItMay(s, order, a, k);
      EndsAsItMay(s, order, b, k);
    }
  }

  // ---- What a write does to convergence --------------------------------------------------------

  /** Every message in flight for k carries v. */
  ghost predicate OnlyCarries(s: State, k: string, v: Option<Bytes>) {
    forall m :: m in s.flight && m.key == k ==> m.val == v
  }

  /** After a write each other node awaits it, beside whatever it awaited; the writer awaits what it did. */
  lemma WriteAwaits(s: State, n: string, k: string, v: Option<Bytes>, a: string, w: Option<Bytes>)
    requires n in s.stores && a in s.stores
    ensures Msg(a, k, w) in Step(s, Write(n, k, v)).flight <==> Msg(a, k, w) in s.flight || (a != n && w == v)
  {
    WriteFlight(s, n, k, v, Msg(a, k, w));
  }

  lemma WriteMayEnd(s: State, n: string, k: string, v: Option<Bytes>, a: string, w: Option<Bytes>)
    requires n in s.stores && a in s.stores
    ensures MayEnd(Step(s, Write(n, k, v)), a, k, w)
       <==> Msg(a, k, w) in s.flight || (w == v && (a != n || !Awaits(s, n, k)))
  {
    var r := Step(s, Write(n, k, v));
    forall u
      ensures Msg(a, k, u) in r.flight <==> Msg(a, k, u) in s.flight || (a != n && u == v)
    {
      WriteAwaits(s, n, k, v, a, u);
    }
    if a != n {
      assert Msg(a, k, v) in r.flight;
    }
  }

  lemma WriteKeepsAddressed(s: State, n: string, j: string, v: Option<Bytes>, k: string)
    requires Addressed(s, k) && n in s.stores
    ensures Addressed(Step(s, Write(n, j, v)), k)
  {
    forall m | m in Step(s, Write(n, j, v)).flight && m.key == k
      ensures m.dest in s.stores
    {
      WriteFlight(s, n, j, v, m);
    }
  }

  /** A write that meets a different one still in flight can be left divided for good by some delivery order. */
  lemma OvertakingDivides(s: State, n: string, k: string, v: Option<Bytes>, late: Msg) returns (order: seq<Msg>)
    requires Addressed(s, k) && n in s.stores && s.stores.Keys != {n}
    requires late in s.flight && late.key == k && late.val != v
    ensures var r := Step(s, Write(n, k, v));
      Deliverable(r, order) && !InFlight(DeliverAll(r, order), k) && !Agree(DeliverAll(r, order), k)
  {
    var r := Step(s, Write(n, k, v));
    WriteKeepsAddressed(s, n, k, v, k);
    var a, w := late.dest, late.val;
    assert late == Msg(a, k, w);
    WriteMayEnd(s, n, k, v, a, w);
    if a == n {
      var b :| b in s.stores && b != n;
      WriteMayEnd(s, n, k, v, b, v);
      order := EndTogether(r, k, n, w, b, v);
    } else {
      var u := SomeEnd(s, n, k, v);
      WriteMayEnd(s, n, k, v, a, v);
      order := EndTogether(r, k, a, if u == w then v else w, n, u);
    }
  }

  /** The writer may end with something: what it awaits, or what it wrote. */
  lemma SomeEnd(s: State, n: string, k: string, v: Option<Bytes>) returns (u: Option<Bytes>)
    requires n in s.stores
    ensures MayEnd(Step(s, Write(n, k, v)), n, k, u)
  {
    if Awaits(s, n, k) {
      u :| Msg(n, k, u) in s.flight;
    } else {
      u := v;
    }
    WriteMayEnd(s, n, k, v, n, u);
  }

  /** From every state: a write converges under every delivery order exactly if every message of its key still in
      flight carries the same value, or there is no other node. */
  lemma WriteConvergesIff(s: State, n: string, k: string, v: Option<Bytes>)
    requires Addressed(s, k) && n in s.stores
    ensures AlwaysConverges(Step(s, Write(n, k, v)), k) <==> OnlyCarries(s, k, v) || s.stores.Keys == {n}
  {
    var r := Step(s, Write(n, k, v));
    if OnlyCarries(s, k, v) || s.stores.Keys == {n} {
      WriteKeepsAddressed(s, n, k, v, k);
      AlwaysConvergesIff(r, k);
      forall a, b, x, y | a in r.stores && b in r.stores && a != b && MayEnd(r, a, k, x) && MayEnd(r, b, k, y)
        ensures x == y
      {
        WriteMayEnd(s, n, k, v, a, x);
        WriteMayEnd(s, n, k, v, b, y);
      }
    } else {
      var late :| late in s.flight && late.key == k && late.val != v;
      var order := OvertakingDivides(s, n, k, v, late);
      assert !Agree(DeliverAll(r, order), k);
    }
  }

  lemma StepKeepsAddressed(s: State, ev: Event, k: string)
    requires Addressed(s, k) && if ev.Write? then ev.node in s.stores else ev.msg.dest in s.stores
    ensures Step(s, ev).stores.Keys == s.stores.Keys && Addressed(Step(s, ev), k)
  {
    match ev
    case Write(n, key, v) => WriteKeepsAddressed(s, n, key, v, k);
    case Deliver(_) =>
  }

  /** Every state of every run is one of those the theorems speak about. */
  lemma {:induction false} RunAddressed(h: History, j: nat, k: string)
    requires h.IsRun() && j <= |h.events|
    ensures h.states[j].stores.Keys == h.nodes && Addressed(h.states[j], k)
  {
    if j > 0 {
      RunAddressed(h, j - 1, k);
      assert h.Taken(j - 1);
      StepKeepsAddressed(h.states[j - 1], h.events[j - 1], k);
    }
  }

  /** So at any moment of any run, quiet or not, a write converges exactly under that condition. */
  lemma RunWriteConvergesIff(h: History, j: nat, n: string, k: string, v: Option<Bytes>)
    requires h.IsRun() && j <= |h.events| && n in h.nodes
    ensures n in h.states[j].stores
    ensures AlwaysConverges(Step(h.states[j], Write(n, k, v)), k) <==> OnlyCarries(h.states[j], k, v) || h.nodes == {n}
  {
    RunAddressed(h, j, k);
    WriteConvergesIff(h.states[j], n, k, v);
  }
}
