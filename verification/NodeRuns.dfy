// What one node sees of a run of the network is a run of that node; so what holds of every run of a
// node holds of every node of the network, and what each node sends adds up.

module NodeRuns {
  import opened Messages
  import opened Ledgers
  import opened DeliveryOrder
  import opened ChainNetwork

  /** What an action is to the node that performs it. */
  function EventOf(a: Action): Event {
    match a
    case Share(_, tx) => Claim(tx)
    case DeliverTx(_, tx) => Claim(tx)
    case DeliverBlock(_, b, k) => Deliver(b, k)
    case MineAt(_, b) => Mine(b)
  }

  ghost predicate Sized(nets: seq<Network>, n: nat) {
    forall t :: 0 <= t < |nets| ==> |nets[t].nodes| == n
  }

  /** The states node i goes through in the first t steps, and the events that take it there. */
  function StatesAt(n: nat, nets: seq<Network>, actions: seq<Action>, i: nat, t: nat): (r: seq<Ledger>)
    requires Sized(nets, n) && |nets| == |actions| + 1 && i < n && t <= |actions|
    ensures |r| == |EventsAt(actions, i, t)| + 1
  {
    if t == 0 then [nets[0].nodes[i]]
    else StatesAt(n, nets, actions, i, t - 1) + if actions[t - 1].node == i then [nets[t].nodes[i]] else []
  }

  function EventsAt(actions: seq<Action>, i: nat, t: nat): seq<Event>
    requires t <= |actions|
  {
    if t == 0 then []
    else EventsAt(actions, i, t - 1) + if actions[t - 1].node == i then [EventOf(actions[t - 1])] else []
  }

  /** A step of the network is a step of the acting node and leaves every other node as it is. */
  lemma StepAtNode(hash: Block -> Digest, u: iset<Block>, net: Network, a: Action)
    requires EnabledIn(hash, u, net, a)
    ensures var after := After(hash, u, net, a);
            && |after.nodes| == |net.nodes|
            && Enabled(hash, u, net.nodes[a.node], EventOf(a))
            && after.nodes[a.node] == Next(hash, net.nodes[a.node], EventOf(a))
            && forall j :: 0 <= j < |net.nodes| && j != a.node ==> after.nodes[j] == net.nodes[j]
  {
  }

  lemma {:induction false} RunSized(hash: Block -> Digest, u: iset<Block>, n: nat, nets: seq<Network>, actions: seq<Action>, t: nat)
    requires IsNetRun(hash, u, n, nets, actions) && t < |nets|
    ensures |nets[t].nodes| == n
  {
    if t > 0 {
      RunSized(hash, u, n, nets, actions, t - 1);
      assert EnabledIn(hash, u, nets[t - 1], actions[t - 1]) && nets[t - 1 + 1] == After(hash, u, nets[t - 1], actions[t - 1]);
      StepAtNode(hash, u, nets[t - 1], actions[t - 1]);
    }
  }

  lemma AllSized(hash: Block -> Digest, u: iset<Block>, n: nat, nets: seq<Network>, actions: seq<Action>)
    requires IsNetRun(hash, u, n, nets, actions)
    ensures Sized(nets, n)
  {
    forall t | 0 <= t < |nets| ensures |nets[t].nodes| == n {
      RunSized(hash, u, n, nets, actions, t);
    }
  }

  lemma RunSnoc(hash: Block -> Digest, u: iset<Block>, states: seq<Ledger>, events: seq<Event>, e: Event, m: Ledger)
    requires IsRun(hash, u, states, events) && Enabled(hash, u, states[|events|], e) && m == Next(hash, states[|events|], e)
    ensures IsRun(hash, u, states + [m], events + [e])
  {
    var ss, ee := states + [m], events + [e];
    forall i | 0 <= i < |ee| ensures Enabled(hash, u, ss[i], ee[i]) && ss[i + 1] == Next(hash, ss[i], ee[i]) {
      if i < |events| {
        assert Enabled(hash, u, states[i], events[i]) && states[i + 1] == Next(hash, states[i], events[i]);
      }
    }
  }

  /** In every run of the network each node goes through a run of its own, with the state it has in
      the network. */
  lemma {:induction false} NodeRun(hash: Block -> Digest, u: iset<Block>, n: nat, nets: seq<Network>, actions: seq<Action>, i: nat, t: nat)
    requires IsNetRun(hash, u, n, nets, actions) && Sized(nets, n) && i < n && t < |nets|
    ensures IsRun(hash, u, StatesAt(n, nets, actions, i, t), EventsAt(actions, i, t))
    ensures StatesAt(n, nets, actions, i, t)[|EventsAt(actions, i, t)|] == nets[t].nodes[i]
  {
    if t > 0 {
      NodeRun(hash, u, n, nets, actions, i, t - 1);
      var net, a := nets[t - 1], actions[t - 1];
      assert EnabledIn(hash, u, net, a) && nets[t - 1 + 1] == After(hash, u, net, a);
      StepAtNode(hash, u, net, a);
      if a.node == i {
        RunSnoc(hash, u, StatesAt(n, nets, actions, i, t - 1), EventsAt(actions, i, t - 1), EventOf(a), nets[t].nodes[i]);
      }
    }
  }

  lemma {:induction false} EarlierStates(n: nat, nets: seq<Network>, actions: seq<Action>, i: nat, s: nat, t: nat)
    requires Sized(nets, n) && |nets| == |actions| + 1 && i < n && s <= t <= |actions|
    ensures EventsAt(actions, i, s) <= EventsAt(actions, i, t)
    ensures StatesAt(n, nets, actions, i, s) <= StatesAt(n, nets, actions, i, t)
  {
    if s < t {
      EarlierStates(n, nets, actions, i, s, t - 1);
    }
  }

  // ---------- what carries over ----------

  /** At no node of any run of the network does the tail get shorter, a known block get unknown or a
      reserved name get free. */
  lemma NetMonotone(
    hash: Block -> Digest, u: iset<Block>, n: nat, nets: seq<Network>, actions: seq<Action>, i: nat, s: nat, t: nat)
    requires Ideal(hash, u) && IsNetRun(hash, u, n, nets, actions) && i < n && s <= t < |nets|
    ensures i < |nets[s].nodes| && i < |nets[t].nodes|
    ensures |nets[s].nodes[i].tail| <= |nets[t].nodes[i].tail|
    ensures nets[s].nodes[i].tree.Keys <= nets[t].nodes[i].tree.Keys
    ensures Reserved(nets[s].nodes[i]) <= Reserved(nets[t].nodes[i])
  {
    AllSized(hash, u, n, nets, actions);
    NodeRun(hash, u, n, nets, actions, i, s);
    NodeRun(hash, u, n, nets, actions, i, t);
    EarlierStates(n, nets, actions, i, s, t);
    var x, y := |EventsAt(actions, i, s)|, |EventsAt(actions, i, t)|;
    RunMonotone(hash, u, StatesAt(n, nets, actions, i, t), EventsAt(actions, i, t), x, y);
  }

  /** What a node of the network knows: the linked chains of good blocks that it received or mined in
      chain order. */
  lemma NetKnownIff(
    hash: Block -> Digest, u: iset<Block>, n: nat, nets: seq<Network>, actions: seq<Action>, i: nat, t: nat, c: Chain)
    requires Ideal(hash, u) && IsNetRun(hash, u, n, nets, actions) && i < n && t < |nets|
    ensures i < |nets[t].nodes|
    ensures Known(hash, nets[t].nodes[i].tree, c) <==> Linked(hash, c) && InOrder(c, Arrivals(EventsAt(actions, i, t)))
  {
    AllSized(hash, u, n, nets, actions);
    NodeRun(hash, u, n, nets, actions, i, t);
    var states, events := StatesAt(n, nets, actions, i, t), EventsAt(actions, i, t);
    RunKnownIff(hash, u, states, events, |events|, c);
    assert events[..|events|] == events;
  }

  // ---------- packets in the whole network ----------

  /** The numbers of peers node i had at its steps, when peers[t] is the acting node's at step t. */
  function PeersAt(actions: seq<Action>, peers: seq<nat>, i: nat, t: nat): (r: seq<nat>)
    requires |peers| == |actions| && t <= |actions|
    ensures |r| == |EventsAt(actions, i, t)|
  {
    if t == 0 then []
    else PeersAt(actions, peers, i, t - 1) + if actions[t - 1].node == i then [peers[t - 1]] else []
  }

  /** The packets with the item sent in step t. */
  function StepSends(hash: Block -> Digest, nets: seq<Network>, actions: seq<Action>, peers: seq<nat>, item: Item, t: nat): nat
    requires |nets| == |actions| + 1 == |peers| + 1 && t < |actions| && actions[t].node < |nets[t].nodes|
  {
    if Floods(hash, nets[t].nodes[actions[t].node], EventOf(actions[t]), item) then peers[t] else 0
  }

  ghost predicate NodesExist(nets: seq<Network>, actions: seq<Action>)
    requires |nets| == |actions| + 1
  {
    forall t :: 0 <= t < |actions| ==> actions[t].node < |nets[t].nodes|
  }

  /** The packets with the item that all nodes together have sent in the first t steps. */
  function NetSends(hash: Block -> Digest, nets: seq<Network>, actions: seq<Action>, peers: seq<nat>, item: Item, t: nat): nat
    requires |nets| == |actions| + 1 == |peers| + 1 && t <= |actions| && NodesExist(nets, actions)
  {
    if t == 0 then 0
    else NetSends(hash, nets, actions, peers, item, t - 1) + StepSends(hash, nets, actions, peers, item, t - 1)
  }

  /** Those that node i has sent. */
  function SendsAt(hash: Block -> Digest, n: nat, nets: seq<Network>, actions: seq<Action>, peers: seq<nat>, item: Item, i: nat, t: nat): nat
    requires |nets| == |actions| + 1 == |peers| + 1 && t <= |actions| && Sized(nets, n) && i < n
  {
    Sends(hash, StatesAt(n, nets, actions, i, t), EventsAt(actions, i, t), PeersAt(actions, peers, i, t), item, |EventsAt(actions, i, t)|)
  }

  lemma {:induction false} SendsPrefix(
    hash: Block -> Digest, states: seq<Ledger>, events: seq<Event>, peers: seq<nat>, item: Item, m: Ledger, e: Event, p: nat, n: nat)
    requires n <= |events| && |states| == |events| + 1 && |peers| == |events|
    ensures Sends(hash, states + [m], events + [e], peers + [p], item, n) == Sends(hash, states, events, peers, item, n)
  {
    if n > 0 {
      SendsPrefix(hash, states, events, peers, item, m, e, p, n - 1);
    }
  }

  lemma SendsOneMore(
    hash: Block -> Digest, states: seq<Ledger>, events: seq<Event>, peers: seq<nat>, item: Item, m: Ledger, e: Event, p: nat)
    requires |states| == |events| + 1 && |peers| == |events|
    ensures Sends(hash, states + [m], events + [e], peers + [p], item, |events| + 1)
            == Sends(hash, states, events, peers, item, |events|) + if Floods(hash, states[|events|], e, item) then p else 0
  {
    SendsPrefix(hash, states, events, peers, item, m, e, p, |events|);
    assert (states + [m])[|events|] == states[|events|];
  }

  /** A step adds its packets to those of the acting node. */
  lemma SendsStep(
    hash: Block -> Digest, u: iset<Block>, n: nat, nets: seq<Network>, actions: seq<Action>, peers: seq<nat>, item: Item, i: nat, t: nat)
    requires IsNetRun(hash, u, n, nets, actions) && Sized(nets, n) && |peers| == |actions| && i < n && t < |actions|
    requires actions[t].node < n
    ensures SendsAt(hash, n, nets, actions, peers, item, i, t + 1) == SendsAt(hash, n, nets, actions, peers, item, i, t)
            + if actions[t].node == i then StepSends(hash, nets, actions, peers, item, t) else 0
  {
    var states, events, ps := StatesAt(n, nets, actions, i, t), EventsAt(actions, i, t), PeersAt(actions, peers, i, t);
    if actions[t].node == i {
      NodeRun(hash, u, n, nets, actions, i, t);
      SendsOneMore(hash, states, events, ps, item, nets[t + 1].nodes[i], EventOf(actions[t]), peers[t]);
    } else {
      assert states + [] == states && events + [] == events && ps + [] == ps;
    }
  }

  /** The packets sent by each node. */
  function NodeSends(hash: Block -> Digest, n: nat, nets: seq<Network>, actions: seq<Action>, peers: seq<nat>, item: Item, t: nat): (r: seq<nat>)
    requires |nets| == |actions| + 1 == |peers| + 1 && t <= |actions| && Sized(nets, n)
    ensures |r| == n
  {
    seq(n, i requires 0 <= i < n => SendsAt(hash, n, nets, actions, peers, item, i, t))
  }

  function Sum(s: seq<nat>): nat {
    if s == [] then 0 else Sum(s[..|s| - 1]) + s[|s| - 1]
  }

  lemma {:induction false} SumChange(s: seq<nat>, r: seq<nat>, j: nat, d: nat)
    requires |s| == |r| && j < |s| && forall i :: 0 <= i < |s| ==> r[i] == s[i] + if i == j then d else 0
    ensures Sum(r) == Sum(s) + d
    decreases |s|
  {
    var m := |s| - 1;
    if j < m {
      SumChange(s[..m], r[..m], j, d);
    } else {
      assert s[..m] == r[..m];
    }
  }

  lemma {:induction false} SumAtMost(s: seq<nat>, most: seq<nat>)
    requires |s| == |most| && forall i :: 0 <= i < |s| ==> s[i] <= most[i]
    ensures Sum(s) <= Sum(most)
    decreases |s|
  {
    if s != [] {
      SumAtMost(s[..|s| - 1], most[..|s| - 1]);
    }
  }

  lemma {:induction false} SumOfZeros(s: seq<nat>)
    requires forall i :: 0 <= i < |s| ==> s[i] == 0
    ensures Sum(s) == 0
    decreases |s|
  {
    if s != [] {
      SumOfZeros(s[..|s| - 1]);
    }
  }

  lemma SumStep(
    hash: Block -> Digest, u: iset<Block>, n: nat, nets: seq<Network>, actions: seq<Action>, peers: seq<nat>, item: Item, t: nat)
    requires IsNetRun(hash, u, n, nets, actions) && Sized(nets, n) && |peers| == |actions| && t < |actions| && actions[t].node < n
    ensures Sum(NodeSends(hash, n, nets, actions, peers, item, t + 1))
            == Sum(NodeSends(hash, n, nets, actions, peers, item, t)) + StepSends(hash, nets, actions, peers, item, t)
  {
    var s, r := NodeSends(hash, n, nets, actions, peers, item, t), NodeSends(hash, n, nets, actions, peers, item, t + 1);
    var j, d := actions[t].node, StepSends(hash, nets, actions, peers, item, t);
    forall i | 0 <= i < n ensures r[i] == s[i] + if i == j then d else 0 {
      SendsStep(hash, u, n, nets, actions, peers, item, i, t);
    }
    SumChange(s, r, j, d);
  }

  lemma NodesInRange(hash: Block -> Digest, u: iset<Block>, n: nat, nets: seq<Network>, actions: seq<Action>)
    requires IsNetRun(hash, u, n, nets, actions) && Sized(nets, n)
    ensures NodesExist(nets, actions) && forall t :: 0 <= t < |actions| ==> actions[t].node < n
  {
    forall t | 0 <= t < |actions| ensures actions[t].node < |nets[t].nodes| {
      assert EnabledIn(hash, u, nets[t], actions[t]);
    }
  }

  /** The packets of the network are those of its nodes. */
  lemma {:induction false} NetSendsIsSum(
    hash: Block -> Digest, u: iset<Block>, n: nat, nets: seq<Network>, actions: seq<Action>, peers: seq<nat>, item: Item, t: nat)
    requires IsNetRun(hash, u, n, nets, actions) && Sized(nets, n) && |peers| == |actions| && t <= |actions|
    requires NodesExist(nets, actions)
    ensures NetSends(hash, nets, actions, peers, item, t) == Sum(NodeSends(hash, n, nets, actions, peers, item, t))
  {
    if t == 0 {
      SumOfZeros(NodeSends(hash, n, nets, actions, peers, item, 0));
    } else {
      NetSendsIsSum(hash, u, n, nets, actions, peers, item, t - 1);
      assert actions[t - 1].node < |nets[t - 1].nodes|;
      SumStep(hash, u, n, nets, actions, peers, item, t - 1);
    }
  }

  lemma {:induction false} PeersBounded(actions: seq<Action>, peers: seq<nat>, i: nat, t: nat, most: nat)
    requires |peers| == |actions| && t <= |actions|
    requires forall s :: 0 <= s < |actions| && actions[s].node == i ==> peers[s] <= most
    ensures forall x :: 0 <= x < |PeersAt(actions, peers, i, t)| ==> PeersAt(actions, peers, i, t)[x] <= most
  {
    if t > 0 {
      PeersBounded(actions, peers, i, t - 1, most);
    }
  }

  lemma NodeSendsBounded(
    hash: Block -> Digest, u: iset<Block>, n: nat, nets: seq<Network>, actions: seq<Action>, peers: seq<nat>, item: Item, i: nat, t: nat, most: nat)
    requires Ideal(hash, u) && IsNetRun(hash, u, n, nets, actions) && Sized(nets, n) && |peers| == |actions| && t <= |actions| && i < n
    requires forall s :: 0 <= s < |actions| && actions[s].node == i ==> peers[s] <= most
    ensures SendsAt(hash, n, nets, actions, peers, item, i, t) <= most
  {
    NodeRun(hash, u, n, nets, actions, i, t);
    PeersBounded(actions, peers, i, t, most);
    var events := EventsAt(actions, i, t);
    SendsBounded(hash, u, StatesAt(n, nets, actions, i, t), events, PeersAt(actions, peers, i, t), item, |events|, most);
  }

  /** Flooding in the whole network: over any run of any number of nodes, with packets lost, repeated and
      reordered, the packets sent for one filename or one block are at most as many as the nodes ever
      have peers, summed over the nodes. */
  lemma NetSendsBounded(
    hash: Block -> Digest, u: iset<Block>, n: nat, nets: seq<Network>, actions: seq<Action>, peers: seq<nat>, item: Item, t: nat, most: seq<nat>)
    requires Ideal(hash, u) && IsNetRun(hash, u, n, nets, actions) && |peers| == |actions| && t <= |actions|
    requires |most| == n && forall s :: 0 <= s < |actions| && actions[s].node < n ==> peers[s] <= most[actions[s].node]
    ensures NodesExist(nets, actions)
    ensures NetSends(hash, nets, actions, peers, item, t) <= Sum(most)
  {
    AllSized(hash, u, n, nets, actions);
    NodesInRange(hash, u, n, nets, actions);
    NetSendsIsSum(hash, u, n, nets, actions, peers, item, t);
    var sends := NodeSends(hash, n, nets, actions, peers, item, t);
    forall i | 0 <= i < n ensures sends[i] <= most[i] {
      NodeSendsBounded(hash, u, n, nets, actions, peers, item, i, t, most[i]);
    }
    SumAtMost(sends, most);
  }
}
