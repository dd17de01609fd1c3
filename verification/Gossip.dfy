/**
 Storage-node gossip. A transaction forwarded with message number k goes on to the entries
 of Gn_order after position k, each numbered by its own position: a binomial tree if nobody
 drops anything. Delivery order, losses through duplicate detection and failed
 verification are all left open.
 */
module Gossip {
  import opened Go

  type NodeId = int

  /** The overlay fields a broadcast reads. */
  datatype Edges = Edges(gnOrder: seq<NodeId>, connections: set<NodeId>)

  /** A TRANSACTION on its way to a node. */
  datatype Msg = Msg(to: NodeId, msgNo: int)

  /** The messages gn_broadcast has yet to write when its loop stands at position i. */
  function Sends(e: Edges, i: nat): seq<Msg>
    decreases |e.gnOrder| - i
  {
    if i >= |e.gnOrder| then []
    else (if e.gnOrder[i] in e.connections then [Msg(e.gnOrder[i], i)] else []) + Sends(e, i + 1)
  }

  /** One message to every connected entry from position i on, numbered by its position, in order. */
  lemma {:induction false} SendsExactly(e: Edges, i: nat)
    ensures forall m :: m in Sends(e, i) <==>
      i <= m.msgNo < |e.gnOrder| && m.to == e.gnOrder[m.msgNo] && m.to in e.connections
    ensures forall j, k :: 0 <= j < k < |Sends(e, i)| ==> Sends(e, i)[j].msgNo < Sends(e, i)[k].msgNo
    decreases |e.gnOrder| - i
  {
    if i < |e.gnOrder| {
      SendsExactly(e, i + 1);
      var sent, rest := Sends(e, i), Sends(e, i + 1);
      var first := if e.gnOrder[i] in e.connections then [Msg(e.gnOrder[i], i)] else [];
      assert sent == first + rest;
      forall j, k | 0 <= j < k < |sent|
        ensures sent[j].msgNo < sent[k].msgNo
      {
        var b := k - |first|;
        assert sent[k] == rest[b] && rest[b] in rest;
        if j >= |first| {
          var a := j - |first|;
          assert 0 <= a < b < |rest|;
          assert rest[a].msgNo < rest[b].msgNo;
          assert sent[j] == rest[a];
        } else {
          assert sent[j] == first[0];
        }
      }
    }
  }

  datatype MsgType = TRANSACTION | ROUTING | GW_TRANSACTION

  class StorageNode {
    var edges: Edges

    constructor (e: Edges)
      ensures edges == e
    {
      edges := e;
    }

    method GnBroadcast(msgNo: int) returns (sent: seq<Msg>)
      requires msgNo >= -1
      ensures sent == Sends(edges, msgNo + 1)
      ensures forall m :: m in sent <==>
        msgNo < m.msgNo < |edges.gnOrder| && m.to == edges.gnOrder[m.msgNo] && m.to in edges.connections
      ensures forall i, j :: 0 <= i < j < |sent| ==> sent[i].msgNo < sent[j].msgNo
    {
      sent := [];
      var i := msgNo + 1;
      while i < |edges.gnOrder|
        invariant 0 <= i
        invariant sent + Sends(edges, i) == Sends(edges, msgNo + 1)
      {
        var node := edges.gnOrder[i];
        if node in edges.connections {
          assert sent + [Msg(node, i)] + Sends(edges, i + 1) == sent + ([Msg(node, i)] + Sends(edges, i + 1));
          sent := sent + [Msg(node, i)];
        }
        i := i + 1;
      }
      assert sent == Sends(edges, msgNo + 1);
      SendsExactly(edges, msgNo + 1);
    }

    /** The three transaction branches of handle_message; `isNew` and `valid` are the answers of its two checks. */
    method HandleMessage(kind: MsgType, msgNo: int, isNew: bool, valid: bool) returns (sent: seq<Msg>, ack: bool)
      requires kind == TRANSACTION ==> msgNo >= -1
      ensures sent == if !isNew || !valid then [] else Sends(edges, if kind == TRANSACTION then msgNo + 1 else 0)
      ensures forall m :: m in sent <==>
        && isNew && valid && (if kind == TRANSACTION then msgNo else -1) < m.msgNo < |edges.gnOrder|
        && m.to == edges.gnOrder[m.msgNo] && m.to in edges.connections
      ensures ack <==> kind == GW_TRANSACTION && isNew && valid
    {
      sent, ack := [], false;
      if !isNew {
        return;
      }
      if !valid {
        return;
      }
      if kind == TRANSACTION {
        sent := GnBroadcast(msgNo);
      } else {
        sent := BroadcastTransaction();
        ack := kind == GW_TRANSACTION;
      }
    }

    method BroadcastTransaction() returns (sent: seq<Msg>)
      ensures sent == Sends(edges, 0)
      ensures forall m :: m in sent <==>
        0 <= m.msgNo < |edges.gnOrder| && m.to == edges.gnOrder[m.msgNo] && m.to in edges.connections
    {
      sent := GnBroadcast(-1);
    }
  }

  // ----- the network

  /** delivered counts the TRANSACTION deliveries so far. */
  datatype Net = Net(flying: seq<Msg>, delivered: nat)

  type Topology = map<NodeId, Edges>

  /** Which message in flight arrives next, and whether its receiver passes it on. */
  datatype Delivery = Delivery(index: nat, forwarded: bool)

  function Reaction(topology: Topology, m: Msg, forwarded: bool): seq<Msg>
    requires m.msgNo >= 0
  {
    if forwarded && m.to in topology then Sends(topology[m.to], m.msgNo + 1) else []
  }

  predicate Deliverable(net: Net, d: Delivery) {
    d.index < |net.flying| && net.flying[d.index].msgNo >= 0
  }

  function Deliver(topology: Topology, net: Net, d: Delivery): Net
    requires Deliverable(net, d)
  {
    Net(net.flying[..d.index] + net.flying[d.index + 1..] + Reaction(topology, net.flying[d.index], d.forwarded),
        net.delivered + 1)
  }

  ghost predicate Runs(topology: Topology, net: Net, schedule: seq<Delivery>, net': Net)
    decreases |schedule|
  {
    if schedule == [] then net' == net
    else Deliverable(net, schedule[0]) && Runs(topology, Deliver(topology, net, schedule[0]), schedule[1..], net')
  }

  /** After the gateway's transaction has been handled at its storage node. */
  function Start(e: Edges): Net {
    Net(Sends(e, 0), 0)
  }

  // ----- the measure

  ghost predicate Bounded(topology: Topology, m: nat) {
    forall n :: n in topology ==> |topology[n].gnOrder| <= m
  }

  ghost predicate Numbered(flying: seq<Msg>, m: nat) {
    forall i :: 0 <= i < |flying| ==> 0 <= flying[i].msgNo < m
  }

  /** How many deliveries the messages in flight can still cause: 2^(m-1-k) for number k. */
  ghost function Load(flying: seq<Msg>, m: nat): nat
    requires Numbered(flying, m)
    decreases |flying|
  {
    if flying == [] then 0
    else Pow2(m - 1 - flying[0].msgNo) + Load(flying[1..], m)
  }

  lemma {:induction false} LoadConcat(a: seq<Msg>, b: seq<Msg>, m: nat)
    requires Numbered(a, m) && Numbered(b, m)
    ensures Numbered(a + b, m) && Load(a + b, m) == Load(a, m) + Load(b, m)
    decreases |a|
  {
    if a == [] {
      assert a + b == b;
    } else {
      LoadConcat(a[1..], b, m);
      assert (a + b)[1..] == a[1..] + b;
    }
  }

  ghost predicate FullyConnected(e: Edges, m: nat) {
    |e.gnOrder| == m && forall i :: 0 <= i < m ==> e.gnOrder[i] in e.connections
  }

  /** A broadcast from position i can cause at most 2^(m-i) - 1 deliveries, and does if nothing is missing. */
  lemma {:induction false} SendsLoad(e: Edges, i: nat, m: nat)
    requires |e.gnOrder| <= m && i <= m
    ensures Numbered(Sends(e, i), m)
    ensures Load(Sends(e, i), m) <= Pow2(m - i) - 1
    ensures FullyConnected(e, m) ==> Load(Sends(e, i), m) == Pow2(m - i) - 1
    decreases m - i
  {
    Pow2Positive(m - i);
    if i < |e.gnOrder| {
      SendsLoad(e, i + 1, m);
      assert Pow2(m - i) == 2 * Pow2(m - i - 1);
      var rest := Sends(e, i + 1);
      if e.gnOrder[i] in e.connections {
        var first := [Msg(e.gnOrder[i], i)];
        assert Numbered(first, m) && first[1..] == [];
        assert Load(first, m) == Pow2(m - 1 - i);
        LoadConcat(first, rest, m);
        assert Sends(e, i) == first + rest;
      } else {
        assert Sends(e, i) == rest;
        assert !FullyConnected(e, m);
      }
    } else {
      assert Sends(e, i) == [];
    }
  }

  lemma {:induction false} RemoveLoad(flying: seq<Msg>, i: nat, m: nat)
    requires Numbered(flying, m) && i < |flying|
    ensures var rest := flying[..i] + flying[i + 1..];
      Numbered(rest, m) && Load(flying, m) == Load(rest, m) + Pow2(m - 1 - flying[i].msgNo)
  {
    var a, one, b := flying[..i], [flying[i]], flying[i + 1..];
    assert flying == a + (one + b) && one[1..] == [];
    LoadConcat(one, b, m);
    LoadConcat(a, one + b, m);
    LoadConcat(a, b, m);
  }

  /** Every delivery uses up at least one unit of load, whatever the receiver does. */
  lemma {:induction false} DeliverLoad(topology: Topology, net: Net, d: Delivery, m: nat)
    requires Bounded(topology, m) && Numbered(net.flying, m) && Deliverable(net, d)
    ensures var net' := Deliver(topology, net, d);
      && Numbered(net'.flying, m)
      && Load(net'.flying, m) + 1 <= Load(net.flying, m)
      && (d.forwarded && net.flying[d.index].to in topology && FullyConnected(topology[net.flying[d.index].to], m)
          ==> Load(net'.flying, m) + 1 == Load(net.flying, m))
  {
    var msg := net.flying[d.index];
    var rest := net.flying[..d.index] + net.flying[d.index + 1..];
    RemoveLoad(net.flying, d.index, m);
    Pow2Positive(m - 1 - msg.msgNo);
    if d.forwarded && msg.to in topology {
      SendsLoad(topology[msg.to], msg.msgNo + 1, m);
    }
    LoadConcat(rest, Reaction(topology, msg, d.forwarded), m);
  }

  lemma {:induction false} RunLoad(topology: Topology, net: Net, schedule: seq<Delivery>, net': Net, m: nat)
    requires Bounded(topology, m) && Numbered(net.flying, m) && Runs(topology, net, schedule, net')
    ensures net'.delivered == net.delivered + |schedule|
    ensures Numbered(net'.flying, m) && net'.delivered + Load(net'.flying, m) <= net.delivered + Load(net.flying, m)
    decreases |schedule|
  {
    if schedule != [] {
      DeliverLoad(topology, net, schedule[0], m);
      RunLoad(topology, Deliver(topology, net, schedule[0]), schedule[1..], net', m);
    }
  }

  /**
   With every Gn_order at most m long, one gateway transaction causes at most 2^m - 1
   deliveries in any order, even if nobody ever recognises a duplicate; so every run ends.
   */
  lemma {:induction false} GossipBounded(topology: Topology, origin: NodeId, schedule: seq<Delivery>, net': Net, m: nat)
    requires origin in topology && Bounded(topology, m)
    requires Runs(topology, Start(topology[origin]), schedule, net')
    ensures |schedule| == net'.delivered <= Pow2(m) - 1
  {
    SendsLoad(topology[origin], 0, m);
    RunLoad(topology, Start(topology[origin]), schedule, net', m);
  }

  // ----- who hears of the transaction

  /** The nodes the deliveries of a schedule go to. */
  ghost function Hearers(topology: Topology, net: Net, schedule: seq<Delivery>): set<NodeId>
    decreases |schedule|
  {
    if schedule == [] || !Deliverable(net, schedule[0]) then {}
    else {net.flying[schedule[0].index].to} + Hearers(topology, Deliver(topology, net, schedule[0]), schedule[1..])
  }

  /** Whatever is in flight arrives before the network is empty. */
  lemma {:induction false} FlyingArrives(topology: Topology, net: Net, schedule: seq<Delivery>, net': Net, m: Msg)
    requires Runs(topology, net, schedule, net') && net'.flying == [] && m in net.flying
    ensures m.to in Hearers(topology, net, schedule)
    decreases |schedule|
  {
    if schedule != [] {
      var d := schedule[0];
      if net.flying[d.index] != m {
        var k :| 0 <= k < |net.flying| && net.flying[k] == m;
        var rest := net.flying[..d.index] + net.flying[d.index + 1..];
        assert rest[if k < d.index then k else k - 1] == m;
        FlyingArrives(topology, Deliver(topology, net, d), schedule[1..], net', m);
      }
    }
  }

  /**
   In every run that empties the network, in any order and with any drops, every connected entry of the
   origin's list hears of the transaction.
   */
  lemma {:induction false} EveryoneHears(topology: Topology, origin: NodeId, schedule: seq<Delivery>, net': Net, k: nat)
    requires origin in topology && Runs(topology, Start(topology[origin]), schedule, net') && net'.flying == []
    requires k < |topology[origin].gnOrder| && topology[origin].gnOrder[k] in topology[origin].connections
    ensures topology[origin].gnOrder[k] in Hearers(topology, Start(topology[origin]), schedule)
  {
    var e := topology[origin];
    SendsExactly(e, 0);
    var m := Msg(e.gnOrder[k], k);
    assert m in Sends(e, 0);
    FlyingArrives(topology, Start(e), schedule, net', m);
  }

  /** And whatever a receiver passes on, to the entries after the number it received, is heard as well. */
  lemma {:induction false} PassedOnIsHeard(topology: Topology, net: Net, schedule: seq<Delivery>, net': Net, k: nat)
    requires Runs(topology, net, schedule, net') && net'.flying == [] && schedule != [] && schedule[0].forwarded
    requires var m := net.flying[schedule[0].index];
      && m.to in topology && m.msgNo < k < |topology[m.to].gnOrder|
      && topology[m.to].gnOrder[k] in topology[m.to].connections
    ensures topology[net.flying[schedule[0].index].to].gnOrder[k] in Hearers(topology, net, schedule)
  {
    var d := schedule[0];
    var m := net.flying[d.index];
    SendsExactly(topology[m.to], m.msgNo + 1);
    var sent := Msg(topology[m.to].gnOrder[k], k);
    assert sent in Reaction(topology, m, true);
    assert sent in Deliver(topology, net, d).flying;
    FlyingArrives(topology, Deliver(topology, net, d), schedule[1..], net', sent);
  }

  // ----- the bound is met

  ghost predicate Complete(topology: Topology, m: nat) {
    forall n :: n in topology ==>
      FullyConnected(topology[n], m) && forall i :: 0 <= i < m ==> topology[n].gnOrder[i] in topology
  }

  ghost predicate Known(topology: Topology, flying: seq<Msg>) {
    forall i :: 0 <= i < |flying| ==> flying[i].to in topology
  }

  lemma {:induction false} SendsKnown(topology: Topology, e: Edges, i: nat)
    requires forall k :: 0 <= k < |e.gnOrder| ==> e.gnOrder[k] in topology
    ensures Known(topology, Sends(e, i))
    decreases |e.gnOrder| - i
  {
    if i < |e.gnOrder| {
      SendsKnown(topology, e, i + 1);
    }
  }

  lemma {:induction false} DeliverKnown(topology: Topology, net: Net, d: Delivery, m: nat)
    requires Complete(topology, m) && Known(topology, net.flying) && Deliverable(net, d) && d.forwarded
    ensures Known(topology, Deliver(topology, net, d).flying)
  {
    var msg := net.flying[d.index];
    SendsKnown(topology, topology[msg.to], msg.msgNo + 1);
  }

  lemma {:induction false} FloodLoad(topology: Topology, net: Net, schedule: seq<Delivery>, net': Net, m: nat)
    requires Complete(topology, m) && Known(topology, net.flying) && Numbered(net.flying, m)
    requires Runs(topology, net, schedule, net')
    requires forall i :: 0 <= i < |schedule| ==> schedule[i].forwarded
    ensures Numbered(net'.flying, m) && net'.delivered + Load(net'.flying, m) == net.delivered + Load(net.flying, m)
    decreases |schedule|
  {
    if schedule != [] {
      var d := schedule[0];
      var msg := net.flying[d.index];
      DeliverLoad(topology, net, d, m);
      DeliverKnown(topology, net, d, m);
      FloodLoad(topology, Deliver(topology, net, d), schedule[1..], net', m);
    }
  }

  /** If every node forwards to m connected nodes, a run that drains the network makes 2^m - 1 deliveries. */
  lemma {:induction false} FloodIsExact(topology: Topology, origin: NodeId, schedule: seq<Delivery>, net': Net, m: nat)
    requires origin in topology && Complete(topology, m)
    requires Runs(topology, Start(topology[origin]), schedule, net') && net'.flying == []
    requires forall i :: 0 <= i < |schedule| ==> schedule[i].forwarded
    ensures net'.delivered == Pow2(m) - 1
  {
    SendsLoad(topology[origin], 0, m);
    SendsKnown(topology, topology[origin], 0);
    FloodLoad(topology, Start(topology[origin]), schedule, net', m);
  }

  /** From any state some order of deliveries, with every receiver forwarding, empties the network. */
  lemma {:induction false} FloodDrains(topology: Topology, net: Net, m: nat)
    returns (schedule: seq<Delivery>, net': Net)
    requires Complete(topology, m) && Known(topology, net.flying) && Numbered(net.flying, m)
    ensures Runs(topology, net, schedule, net') && net'.flying == []
    ensures forall i :: 0 <= i < |schedule| ==> schedule[i].forwarded
    decreases Load(net.flying, m)
  {
    if net.flying == [] {
      schedule, net' := [], net;
    } else {
      var d := Delivery(0, true);
      DeliverLoad(topology, net, d, m);
      DeliverKnown(topology, net, d, m);
      var rest;
      rest, net' := FloodDrains(topology, Deliver(topology, net, d), m);
      schedule := [d] + rest;
      assert schedule[1..] == rest;
    }
  }

  function UpTo(m: nat): (s: set<NodeId>)
    ensures forall k :: k in s <==> 0 <= k <= m
  {
    if m == 0 then {0} else UpTo(m - 1) + {m}
  }

  /** The nodes 0 to m, each connected to all others and listing them in ascending order. */
  function EveryoneConnected(m: nat): Topology {
    map n | n in UpTo(m) :: Edges(seq(m, i => if i < n then i else i + 1), UpTo(m))
  }

  /** For every m there is a network and a run of it that makes all 2^m - 1 deliveries. */
  lemma {:induction false} BoundIsMet(m: nat) returns (topology: Topology, schedule: seq<Delivery>, net': Net)
    ensures 0 in topology && Complete(topology, m)
    ensures Runs(topology, Start(topology[0]), schedule, net') && net'.flying == []
    ensures |schedule| == net'.delivered == Pow2(m) - 1
  {
    topology := EveryoneConnected(m);
    SendsLoad(topology[0], 0, m);
    SendsKnown(topology, topology[0], 0);
    schedule, net' := FloodDrains(topology, Start(topology[0]), m);
    FloodIsExact(topology, 0, schedule, net', m);
    GossipBounded(topology, 0, schedule, net', m);
  }
}
