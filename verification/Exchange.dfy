// The exchange of two gossipers as steps of the network, and what it is for: from wherever the
// network has got to, anti-entropy can bring every rumor to every node.

module Exchanges {
  import opened Wrappers
  import opened MessageStorages
  import AntiEntropy
  import GossipNetwork

  type Net = GossipNetwork.Net
  type Action = GossipNetwork.Action
  type Session = AntiEntropy.Session

  // ---------- continuations ----------

  /** Two ways to go on without new rumors: by statuses and the answers to them, nothing being mongered,
      or by mongering alone, no status being sent or answered but as feedback. */
  datatype Means = Answers | Mongering

  predicate By(means: Means, a: Action) {
    match means
    case Answers => a.SendStatus? || a.DeliverRumor? || a.DeliverStatus?
    case Mongering => a.Spread? || a.DeliverRumor?
  }

  ghost predicate StepsTo(net: Net, a: Action, next: Net) {
    GossipNetwork.Enabled(net, a) && next == GossipNetwork.Next(net, a)
  }

  ghost predicate IsPath(nets: seq<Net>, actions: seq<Action>) {
    && |nets| == |actions| + 1
    && forall t :: 0 <= t < |actions| ==> StepsTo(nets[t], actions[t], nets[t + 1])
  }

  ghost predicate AllBy(means: Means, actions: seq<Action>) {
    forall t :: 0 <= t < |actions| ==> By(means, actions[t])
  }

  /** Steps of these means lead from one network to the other. */
  ghost predicate Leads(means: Means, from: Net, to: Net) {
    exists nets, actions :: IsPath(nets, actions) && AllBy(means, actions) && nets[0] == from && nets[|actions|] == to
  }

  lemma Joined(nets: seq<Net>, actions: seq<Action>, more: seq<Net>, acts: seq<Action>)
    requires IsPath(nets, actions) && IsPath(more, acts) && nets[|actions|] == more[0]
    ensures IsPath(nets + more[1..], actions + acts)
    ensures (nets + more[1..])[0] == nets[0] && (nets + more[1..])[|actions + acts|] == more[|acts|]
  {
    var ns, aa := nets + more[1..], actions + acts;
    forall t | 0 <= t < |aa| ensures StepsTo(ns[t], aa[t], ns[t + 1]) {
      if t < |actions| {
        assert StepsTo(nets[t], actions[t], nets[t + 1]);
      } else {
        var k := t - |actions|;
        assert StepsTo(more[k], acts[k], more[k + 1]);
        assert ns[t] == more[k] && ns[t + 1] == more[k + 1] && aa[t] == acts[k];
      }
    }
  }

  lemma LeadsOn(means: Means, a: Net, b: Net, c: Net)
    requires Leads(means, a, b) && Leads(means, b, c)
    ensures Leads(means, a, c)
  {
    var nets, actions :| IsPath(nets, actions) && AllBy(means, actions) && nets[0] == a && nets[|actions|] == b;
    var more, acts :| IsPath(more, acts) && AllBy(means, acts) && more[0] == b && more[|acts|] == c;
    Joined(nets, actions, more, acts);
  }

  lemma LeadsSelf(means: Means, net: Net)
    ensures Leads(means, net, net)
  {
    assert IsPath([net], []);
  }

  lemma LeadsOne(means: Means, net: Net, a: Action, next: Net)
    requires By(means, a) && StepsTo(net, a, next)
    ensures Leads(means, net, next)
  {
    assert IsPath([net, next], [a]);
  }

  // ---------- an exchange in the network ----------

  /** Node i is x, node j is y, and i's status that shows what was seen is on its way. */
  ghost predicate Couples(net: Net, i: nat, j: nat, s: Session, want: seq<PeerStatus>) {
    && |net.names| == |net.stores|
    && i < |net.stores| && j < |net.stores| && i != j
    && s.x == net.stores[i] && s.y == net.stores[j]
    && (i, want) in net.statuses && IsStatus(want, s.seen)
  }

  ghost predicate OthersSame(net: Net, next: Net, i: nat, j: nat) {
    && |next.stores| == |net.stores|
    && forall k :: 0 <= k < |net.stores| && k != i && k != j ==> next.stores[k] == net.stores[k]
  }

  /** y answers the status with a rumor: the status is delivered at j, the rumor at i, and i's feedback is
      the status that is on its way next. */
  lemma RumorRealised(net: Net, i: nat, j: nat, s: Session, want: seq<PeerStatus>, r: Rumor, ahead: bool, next: seq<PeerStatus>)
    returns (after: Net)
    requires Couples(net, i, j, s, want) && LogsOk(s.y) && DiffOk(s.y, want, Some(r), ahead) && IsStatus(next, s.x)
    ensures Leads(Answers, net, after) && OthersSame(net, after, i, j)
    ensures Couples(after, i, j, AntiEntropy.Session(Added(s.x, r), s.y, s.x), next)
  {
    AntiEntropy.StatusExists(s.y);
    var answer :| IsStatus(answer, s.y);
    var a := GossipNetwork.DeliverStatus(j, i, want, Some(r), ahead, answer);
    var mid := GossipNetwork.Next(net, a);
    LeadsOne(Answers, net, a, mid);
    var b := GossipNetwork.DeliverRumor(i, r, next);
    after := GossipNetwork.Next(mid, b);
    LeadsOne(Answers, mid, b, after);
    LeadsOn(Answers, net, mid, after);
  }

  /** y is behind only: its own status goes back. */
  lemma SwitchRealised(net: Net, i: nat, j: nat, s: Session, want: seq<PeerStatus>, next: seq<PeerStatus>)
    returns (after: Net)
    requires Couples(net, i, j, s, want) && DiffOk(s.y, want, None, true) && IsStatus(next, s.y)
    ensures Leads(Answers, net, after) && OthersSame(net, after, i, j)
    ensures Couples(after, j, i, AntiEntropy.Session(s.y, s.x, s.y), next)
  {
    var a := GossipNetwork.DeliverStatus(j, i, want, None, true, next);
    after := GossipNetwork.Next(net, a);
    LeadsOne(Answers, net, a, after);
  }

  /** Every step of an exchange, and the status to be used in the step after it, is a step or two of
      the network. */
  lemma StepRealised(net: Net, i: nat, j: nat, s: Session, t: Session, want: seq<PeerStatus>, rumor: Option<Rumor>, ahead: bool, next: seq<PeerStatus>)
    returns (after: Net)
    requires Couples(net, i, j, s, want) && LogsOk(s.y)
    requires AntiEntropy.Step(s, t, want, rumor, ahead) && IsStatus(next, t.seen)
    ensures Leads(Answers, net, after) && OthersSame(net, after, i, j)
    ensures if rumor != None then Couples(after, i, j, t, next) else Couples(after, j, i, t, next)
  {
    if rumor != None {
      after := RumorRealised(net, i, j, s, want, rumor.value, ahead, next);
    } else {
      after := SwitchRealised(net, i, j, s, want, next);
    }
  }

  /** The status is one that the first step of the exchange, if there is any, can start from. */
  ghost predicate Fits(states: seq<Session>, want: seq<PeerStatus>)
    requires states != []
  {
    && IsStatus(want, states[0].seen)
    && (|states| > 1 ==> exists rumor, ahead :: AntiEntropy.Step(states[0], states[1], want, rumor, ahead))
  }

  lemma SomeFits(states: seq<Session>) returns (want: seq<PeerStatus>)
    requires AntiEntropy.IsRun(states) && AntiEntropy.Inv(states[0])
    ensures Fits(states, want)
  {
    if |states| > 1 {
      assert AntiEntropy.Moves(states[0], states[0 + 1]);
      var w, rumor, ahead :| AntiEntropy.Step(states[0], states[1], w, rumor, ahead);
      want := w;
    } else {
      AntiEntropy.StatusExists(states[0].seen);
      want :| IsStatus(want, states[0].seen);
    }
  }

  /** The two nodes hold what the exchange ended with. */
  ghost predicate Holds(net: Net, i: nat, j: nat, s: Session) {
    && i < |net.stores| && j < |net.stores|
    && ((net.stores[i] == s.x && net.stores[j] == s.y) || (net.stores[i] == s.y && net.stores[j] == s.x))
  }

  /** Every exchange is a continuation of the network in which no other node changes. */
  lemma {:induction false} ExchangeRealised(names: seq<string>, net: Net, i: nat, j: nat, states: seq<Session>, want: seq<PeerStatus>)
    returns (after: Net)
    requires AntiEntropy.IsRun(states) && AntiEntropy.Inv(states[0]) && AntiEntropy.Covers(names, states[0])
    requires Couples(net, i, j, states[0], want) && Fits(states, want)
    ensures Leads(Answers, net, after) && OthersSame(net, after, i, j) && Holds(after, i, j, states[|states| - 1])
    decreases |states|
  {
    if |states| == 1 {
      LeadsSelf(Answers, net);
      after := net;
    } else {
      var rest := states[1..];
      assert AntiEntropy.Moves(states[0], states[0 + 1]);
      AntiEntropy.MoveConverges(names, states[0], states[1]);
      RestIsRun(states);
      var next := SomeFits(rest);
      var rumor, ahead :| AntiEntropy.Step(states[0], states[1], want, rumor, ahead);
      var mid := StepRealised(net, i, j, states[0], states[1], want, rumor, ahead, next);
      if rumor != None {
        after := ExchangeRealised(names, mid, i, j, rest, next);
      } else {
        after := ExchangeRealised(names, mid, j, i, rest, next);
      }
      LeadsOn(Answers, net, mid, after);
    }
  }

  lemma RestIsRun(states: seq<Session>)
    requires AntiEntropy.IsRun(states) && |states| > 1
    ensures AntiEntropy.IsRun(states[1..])
  {
    forall i | 0 <= i < |states[1..]| - 1 ensures AntiEntropy.Moves(states[1..][i], states[1..][i + 1]) {
      assert AntiEntropy.Moves(states[i + 1], states[i + 1 + 1]);
    }
  }

  // ---------- two nodes ----------

  /** Both nodes hold, of every origin, the longer of the logs that the two held. */
  ghost predicate Merged(net: Net, after: Net, i: nat, j: nat)
    requires i < |net.stores| && j < |net.stores|
  {
    && i < |after.stores| && j < |after.stores|
    && forall o {:trigger LogOf(after.stores[i], o)} ::
         LogOf(after.stores[i], o) == LogOf(after.stores[j], o)
         == AntiEntropy.Longer(AntiEntropy.Session(net.stores[i], net.stores[j], net.stores[i]), o)
  }

  /** From every network that can be reached, some quiet continuation leaves two given nodes with the
      longer log of every origin, and no other node changed. */
  lemma PairConverges(net: Net, i: nat, j: nat) returns (after: Net)
    requires GossipNetwork.Inv(net) && i < |net.stores| && j < |net.stores|
    ensures Leads(Answers, net, after) && OthersSame(net, after, i, j) && Merged(net, after, i, j)
  {
    if i == j {
      LeadsSelf(Answers, net);
      return net;
    }
    var x, y := net.stores[i], net.stores[j];
    var s := AntiEntropy.Session(x, y, x);
    assert GossipNetwork.StoreOk(net.issued, x) && GossipNetwork.StoreOk(net.issued, y);
    AntiEntropy.TwoNodesOk(net.issued, x, y);
    var names := AntiEntropy.Enumerated(x.Keys + y.Keys);
    assert AntiEntropy.Covers(names, s) by {
      assert forall o :: o in x || o in y ==> o in x.Keys + y.Keys;
    }
    var states := AntiEntropy.FinalReached(names, s);
    var want := SomeFits(states);
    var a := GossipNetwork.SendStatus(i, want);
    var start := GossipNetwork.Next(net, a);
    LeadsOne(Answers, net, a, start);
    after := ExchangeRealised(names, start, i, j, states, want);
    LeadsOn(Answers, net, start, after);
    forall o ensures LogOf(after.stores[i], o) == LogOf(after.stores[j], o) == AntiEntropy.Longer(s, o) {
      AntiEntropy.Converges(names, states, o);
    }
  }

  // ---------- the whole network ----------

  /** Node i holds all that node o has issued. */
  ghost predicate Has(net: Net, i: nat, o: nat) {
    i < |net.stores| && o < |net.names| && LogOf(net.stores[i], net.names[o]) == LogOf(net.issued, net.names[o])
  }

  ghost predicate Keeps(net: Net, next: Net) {
    && GossipNetwork.Inv(next)
    && next.names == net.names && next.issued == net.issued && |next.stores| == |net.stores|
    && forall i, o :: Has(net, i, o) ==> Has(next, i, o)
  }

  lemma DeliveryKeeps(net: Net, a: Action, i: nat, o: nat)
    requires GossipNetwork.Inv(net) && GossipNetwork.Enabled(net, a) && a.DeliverRumor? && Has(net, i, o)
    ensures Has(GossipNetwork.Next(net, a), i, o)
  {
    assert GossipNetwork.StoreOk(net.issued, net.stores[a.node]) && GossipNetwork.Genuine(net.issued, a.r);
    GossipNetwork.StoreGenuine(net.issued, net.stores[a.node], a.r);
  }

  lemma StepKeeps(means: Means, net: Net, a: Action)
    requires GossipNetwork.Inv(net) && GossipNetwork.Enabled(net, a) && By(means, a)
    ensures Keeps(net, GossipNetwork.Next(net, a))
  {
    GossipNetwork.StepInv(net, a);
    var next := GossipNetwork.Next(net, a);
    forall i, o | Has(net, i, o) ensures Has(next, i, o) {
      if a.DeliverRumor? {
        DeliveryKeeps(net, a, i, o);
      } else {
        assert next.stores == net.stores;
      }
    }
  }

  lemma {:induction false} PathKeeps(means: Means, nets: seq<Net>, actions: seq<Action>, t: nat)
    requires IsPath(nets, actions) && AllBy(means, actions) && GossipNetwork.Inv(nets[0]) && t <= |actions|
    ensures Keeps(nets[0], nets[t])
  {
    if t > 0 {
      PathKeeps(means, nets, actions, t - 1);
      assert StepsTo(nets[t - 1], actions[t - 1], nets[t - 1 + 1]);
      StepKeeps(means, nets[t - 1], actions[t - 1]);
    }
  }

  lemma LeadsKeeps(means: Means, net: Net, after: Net)
    requires GossipNetwork.Inv(net) && Leads(means, net, after)
    ensures Keeps(net, after)
  {
    var nets, actions :| IsPath(nets, actions) && AllBy(means, actions) && nets[0] == net && nets[|actions|] == after;
    PathKeeps(means, nets, actions, |actions|);
  }

  /** An exchange with node o brings node i all that o has issued. */
  lemma NodeAsks(net: Net, i: nat, o: nat) returns (after: Net)
    requires GossipNetwork.Inv(net) && i < |net.stores| && o < |net.stores|
    ensures Leads(Answers, net, after) && Has(after, i, o)
  {
    after := PairConverges(net, i, o);
    LeadsKeeps(Answers, net, after);
    assert GossipNetwork.StoreOk(net.issued, net.stores[i]);
    assert GossipNetwork.OwnLog(net, o) == LogOf(net.issued, net.names[o]);
    assert LogOf(net.stores[i], net.names[o]) <= LogOf(net.issued, net.names[o]);
    assert LogOf(after.stores[i], net.names[o]) == LogOf(net.issued, net.names[o]);
  }

  /** Any node that holds more of an origin than node i mongers the first rumor that i lacks, and i
      receives it. */
  lemma OneRumor(net: Net, i: nat, j: nat, o: nat) returns (after: Net)
    requires GossipNetwork.Inv(net) && i < |net.stores| && j < |net.stores| && o < |net.names|
    requires |LogOf(net.stores[i], net.names[o])| < |LogOf(net.stores[j], net.names[o])|
    ensures Leads(Mongering, net, after) && |after.stores| == |net.stores| && after.names == net.names
    ensures |LogOf(after.stores[i], net.names[o])| == |LogOf(net.stores[i], net.names[o])| + 1
  {
    var name := net.names[o];
    var log := LogOf(net.stores[j], name);
    assert GossipNetwork.StoreOk(net.issued, net.stores[i]) && GossipNetwork.StoreOk(net.issued, net.stores[j]);
    assert LogOf(net.stores[i], name) <= LogOf(net.issued, name) && log <= LogOf(net.issued, name);
    var r := log[|LogOf(net.stores[i], name)|];
    assert LogOk(name, net.stores[j][name]);
    var a := GossipNetwork.Spread(j, r);
    var mid := GossipNetwork.Next(net, a);
    LeadsOne(Mongering, net, a, mid);
    AntiEntropy.StatusExists(net.stores[i]);
    var feedback :| IsStatus(feedback, net.stores[i]);
    var b := GossipNetwork.DeliverRumor(i, r, feedback);
    after := GossipNetwork.Next(mid, b);
    LeadsOne(Mongering, mid, b, after);
    LeadsOn(Mongering, net, mid, after);
  }

  lemma {:induction false} NodeHears(net: Net, i: nat, o: nat) returns (after: Net)
    requires GossipNetwork.Inv(net) && i < |net.stores| && o < |net.stores|
    ensures Leads(Mongering, net, after) && Has(after, i, o)
    decreases |LogOf(net.issued, net.names[o])| - |LogOf(net.stores[i], net.names[o])|
  {
    if |LogOf(net.stores[i], net.names[o])| == |LogOf(net.issued, net.names[o])| {
      HeldIsIssued(net, i, o);
      LeadsSelf(Mongering, net);
      after := net;
    } else {
      HeldIsIssued(net, i, o);
      assert GossipNetwork.OwnLog(net, o) == LogOf(net.issued, net.names[o]);
      var mid := OneRumor(net, i, o, o);
      LeadsKeeps(Mongering, net, mid);
      HeldIsIssued(mid, i, o);
      after := NodeHears(mid, i, o);
      LeadsOn(Mongering, net, mid, after);
    }
  }

  lemma HeldIsIssued(net: Net, i: nat, o: nat)
    requires GossipNetwork.Inv(net) && i < |net.stores| && o < |net.names|
    ensures LogOf(net.stores[i], net.names[o]) <= LogOf(net.issued, net.names[o])
  {
    assert GossipNetwork.StoreOk(net.issued, net.stores[i]);
    assert LogOf(net.stores[i], net.names[o]) <= LogOf(net.issued, net.names[o]);
  }

  lemma NodeGets(means: Means, net: Net, i: nat, o: nat) returns (after: Net)
    requires GossipNetwork.Inv(net) && i < |net.stores| && o < |net.stores|
    ensures Leads(means, net, after) && Has(after, i, o)
  {
    match means
    case Answers => after := NodeAsks(net, i, o);
    case Mongering => after := NodeHears(net, i, o);
  }

  /** Node i holds all that the first n nodes have issued. */
  ghost predicate HasAll(net: Net, i: nat, n: nat) {
    forall o :: 0 <= o < n ==> Has(net, i, o)
  }

  lemma KeepsAll(net: Net, next: Net, i: nat, n: nat)
    requires Keeps(net, next) && HasAll(net, i, n)
    ensures HasAll(next, i, n)
  {
  }

  lemma {:induction false} NodeCatchesUp(means: Means, net: Net, i: nat, n: nat) returns (after: Net)
    requires GossipNetwork.Inv(net) && i < |net.stores| && n <= |net.stores|
    ensures Leads(means, net, after) && HasAll(after, i, n)
    decreases n
  {
    if n == 0 {
      LeadsSelf(means, net);
      after := net;
    } else {
      var mid := NodeCatchesUp(means, net, i, n - 1);
      LeadsKeeps(means, net, mid);
      after := NodeGets(means, mid, i, n - 1);
      LeadsKeeps(means, mid, after);
      KeepsAll(mid, after, i, n - 1);
      LeadsOn(means, net, mid, after);
    }
  }

  lemma {:induction false} NodesCatchUp(means: Means, net: Net, m: nat) returns (after: Net)
    requires GossipNetwork.Inv(net) && m <= |net.stores|
    ensures Leads(means, net, after) && forall i :: 0 <= i < m ==> HasAll(after, i, |net.stores|)
    decreases m
  {
    if m == 0 {
      LeadsSelf(means, net);
      after := net;
    } else {
      var mid := NodesCatchUp(means, net, m - 1);
      LeadsKeeps(means, net, mid);
      after := NodeCatchesUp(means, mid, m - 1, |net.stores|);
      LeadsKeeps(means, mid, after);
      forall i | 0 <= i < m - 1 ensures HasAll(after, i, |net.stores|) {
        KeepsAll(mid, after, i, |net.stores|);
      }
      LeadsOn(means, net, mid, after);
    }
  }

  /** Whatever has been lost, repeated or delayed: every run of the network has a continuation, by
      statuses and their answers alone, and another one by mongering alone, after which every node
      holds all that any node has issued. */
  lemma EverybodyCanCatchUp(means: Means, names: seq<string>, nets: seq<Net>, actions: seq<Action>, t: nat)
    requires GossipNetwork.IsRun(names, nets, actions) && t < |nets|
    requires forall x, y :: 0 <= x < y < |names| ==> names[x] != names[y]
    ensures exists after ::
              && Leads(means, nets[t], after) && after.issued == nets[t].issued && after.names == names
              && forall i :: 0 <= i < |names| ==> HasAll(after, i, |names|)
  {
    GossipNetwork.RunInv(names, nets, actions, t);
    var after := NodesCatchUp(means, nets[t], |names|);
    LeadsKeeps(means, nets[t], after);
  }
}
