// A network of gossipers exchanging rumors and statuses. Packets may be lost, repeated and
// reordered: everything ever sent stays available for delivery, to anybody, at any later time.

module GossipNetwork {
  import opened Wrappers
  import opened MessageStorages

  /** statuses holds every status ever sent with its sender; replies every rumor ever sent to a node
      because of a status of that node. The history variable issued holds what the origins' clients
      have issued, by origin. */
  datatype Net = Net(
    names: seq<string>,
    stores: seq<Logs>,
    issued: Logs,
    rumors: set<Rumor>,
    statuses: set<(nat, seq<PeerStatus>)>,
    replies: set<(nat, Rumor)>)

  datatype Action =
    | Originate(node: nat, text: string)                                    // a client's rumor
    | SendStatus(node: nat, want: seq<PeerStatus>)                          // anti-entropy timer
    | DeliverRumor(node: nat, r: Rumor, feedback: seq<PeerStatus>)
    | DeliverStatus(node: nat, sender: nat, want: seq<PeerStatus>, reply: Option<Rumor>, ahead: bool, answer: seq<PeerStatus>)
    | Spread(node: nat, r: Rumor)                                           // rumor mongering

  function OwnLog(net: Net, o: nat): seq<Rumor>
    requires o < |net.names| && o < |net.stores|
  {
    LogOf(net.stores[o], net.names[o])
  }

  function NewRumor(net: Net, o: nat, text: string): Rumor
    requires o < |net.names| && o < |net.stores| && |OwnLog(net, o)| < MAX32
  {
    Rumor(net.names[o], |OwnLog(net, o)| + 1, text)
  }

  ghost predicate Enabled(net: Net, a: Action) {
    && |net.names| == |net.stores|
    && a.node < |net.stores|
    && match a
       // clients stop before the counter could wrap round
       case Originate(i, text) => |OwnLog(net, i)| + 1 < MAX32
       case SendStatus(i, want) => IsStatus(want, net.stores[i])
       case DeliverRumor(i, r, feedback) => r in net.rumors && IsStatus(feedback, net.stores[i])
       case DeliverStatus(i, sender, want, reply, ahead, answer) =>
         (sender, want) in net.statuses && DiffOk(net.stores[i], want, reply, ahead) && IsStatus(answer, net.stores[i])
       case Spread(i, r) => r in LogOf(net.stores[i], r.origin)
  }

  /** An issued rumor is sent on by Spread, like any other that is held. The feedback to a rumor is
      taken before the rumor is stored. */
  function Next(net: Net, a: Action): Net
    requires |net.names| == |net.stores| && a.node < |net.stores|
    requires a.Originate? ==> |OwnLog(net, a.node)| < MAX32
  {
    match a
    case Originate(i, text) =>
      var r := NewRumor(net, i, text);
      net.(stores := net.stores[i := Added(net.stores[i], r)], issued := Added(net.issued, r))
    case SendStatus(i, want) =>
      net.(statuses := net.statuses + {(i, want)})
    case DeliverRumor(i, r, feedback) =>
      net.(statuses := net.statuses + {(i, feedback)}, stores := net.stores[i := Added(net.stores[i], r)])
    case DeliverStatus(i, sender, want, reply, ahead, answer) =>
      if reply != None then
        net.(rumors := net.rumors + {reply.value}, replies := net.replies + {(sender, reply.value)})
      else if ahead then
        net.(statuses := net.statuses + {(i, answer)})
      else net
    case Spread(i, r) =>
      net.(rumors := net.rumors + {r})
  }

  // ---------- the invariant ----------

  ghost predicate NamesOk(net: Net) {
    && |net.names| == |net.stores|
    && forall i, j :: 0 <= i < j < |net.names| ==> net.names[i] != net.names[j]
  }

  /** Every log of s is a beginning of the log of the same origin in t. */
  ghost predicate Prefixes(s: Logs, t: Logs) {
    forall name {:trigger LogOf(s, name)} :: LogOf(s, name) <= LogOf(t, name)
  }

  /** What a node holds of any origin is a beginning of what the origin has issued. */
  ghost predicate StoreOk(issued: Logs, s: Logs) {
    LogsOk(s) && Prefixes(s, issued)
  }

  ghost predicate IssuedOk(issued: Logs) {
    LogsOk(issued) && forall name :: |LogOf(issued, name)| < MAX32
  }

  /** A rumor on its way was issued by its origin under its number. */
  ghost predicate Genuine(issued: Logs, r: Rumor) {
    SendsFor(issued, r.origin, r.id - 1, r)
  }

  /** A status on its way asks for nothing beyond what its sender now wants next. */
  ghost predicate LowerBound(s: Logs, want: seq<PeerStatus>) {
    forall i :: 0 <= i < |want| ==> 1 <= want[i].nextId <= |LogOf(s, want[i].identifier)| + 1
  }

  /** A reply to a status is old at the status's sender, or exactly next there. */
  ghost predicate NotPremature(s: Logs, r: Rumor) {
    1 <= r.id <= |LogOf(s, r.origin)| + 1
  }

  ghost predicate StatusOk(stores: seq<Logs>, p: (nat, seq<PeerStatus>)) {
    p.0 < |stores| && LowerBound(stores[p.0], p.1)
  }

  ghost predicate ReplyOk(stores: seq<Logs>, p: (nat, Rumor)) {
    p.0 < |stores| && NotPremature(stores[p.0], p.1)
  }

  ghost predicate InFlightOk(net: Net) {
    && (forall r :: r in net.rumors ==> Genuine(net.issued, r))
    && (forall p :: p in net.statuses ==> StatusOk(net.stores, p))
    && (forall p :: p in net.replies ==> ReplyOk(net.stores, p))
  }

  ghost predicate Inv(net: Net) {
    && NamesOk(net)
    && IssuedOk(net.issued)
    && (forall i :: 0 <= i < |net.stores| ==> StoreOk(net.issued, net.stores[i]))
    && (forall o :: 0 <= o < |net.names| ==> OwnLog(net, o) == LogOf(net.issued, net.names[o]))
    && InFlightOk(net)
  }

  function Init(names: seq<string>): Net {
    Net(names, seq(|names|, i => map[]), map[], {}, {}, {})
  }

  // ---------- one step ----------

  /** A fresh status of a node is a lower bound at that node. */
  lemma FreshStatus(issued: Logs, s: Logs, want: seq<PeerStatus>)
    requires IssuedOk(issued) && StoreOk(issued, s) && IsStatus(want, s)
    ensures LowerBound(s, want)
  {
    forall j | 0 <= j < |want| ensures 1 <= want[j].nextId <= |LogOf(s, want[j].identifier)| + 1 {
      assert LogOf(s, want[j].identifier) <= LogOf(issued, want[j].identifier);
    }
  }

  /** Whatever a node holds was issued by the rumor's origin. */
  lemma HeldIsGenuine(issued: Logs, s: Logs, name: string, k: int, r: Rumor)
    requires StoreOk(issued, s) && SendsFor(s, name, k, r)
    ensures Genuine(issued, r) && r.id == k + 1 && r.origin == name
  {
    assert LogOk(name, s[name]);
    assert LogOf(s, name) <= LogOf(issued, name);
  }

  /** The rumor Diff picks from a possibly stale status is not premature at the status's sender. */
  lemma ReplyNotPremature(issued: Logs, s: Logs, sender: Logs, want: seq<PeerStatus>, r: Rumor)
    requires StoreOk(issued, s) && LowerBound(sender, want) && ToSend(s, want, r)
    ensures Genuine(issued, r) && NotPremature(sender, r)
  {
    if e :| 0 <= e < |want| && SendsFor(s, want[e].identifier, Pred32(want[e].nextId), r) {
      HeldIsGenuine(issued, s, want[e].identifier, Pred32(want[e].nextId), r);
    } else {
      var o :| !Lists(want, o) && SendsFor(s, o, 0, r);
      HeldIsGenuine(issued, s, o, 0, r);
    }
  }

  /** Storing a genuine rumor keeps the logs beginnings of what was issued. A log that is complete
      already, such as an origin's own, does not change. */
  lemma StoreGenuine(issued: Logs, s: Logs, r: Rumor)
    requires IssuedOk(issued) && StoreOk(issued, s) && Genuine(issued, r)
    ensures StoreOk(issued, Added(s, r))
    ensures Prefixes(s, Added(s, r))
    ensures forall name :: LogOf(s, name) == LogOf(issued, name) ==> LogOf(Added(s, r), name) == LogOf(issued, name)
  {
    var t := Added(s, r);
    assert LogOf(s, r.origin) <= LogOf(issued, r.origin);
    AddedOk(s, r);
    forall name ensures LogOf(t, name) <= LogOf(issued, name) {
      assert LogOf(s, name) <= LogOf(issued, name);
    }
  }

  lemma LowerBoundGrows(s: Logs, t: Logs, want: seq<PeerStatus>)
    requires LowerBound(s, want) && Prefixes(s, t)
    ensures LowerBound(t, want)
  {
    forall i | 0 <= i < |want| ensures want[i].nextId <= |LogOf(t, want[i].identifier)| + 1 {
      assert LogOf(s, want[i].identifier) <= LogOf(t, want[i].identifier);
    }
  }

  /** Statuses and replies stay good while stores grow. */
  lemma InFlightKept(net: Net, next: Net)
    requires InFlightOk(net) && |next.stores| == |net.stores|
    requires next.statuses == net.statuses && next.replies == net.replies
    requires forall j :: 0 <= j < |net.stores| ==> Prefixes(net.stores[j], next.stores[j])
    requires forall r :: r in next.rumors ==> Genuine(next.issued, r)
    ensures InFlightOk(next)
  {
    forall p | p in next.statuses ensures StatusOk(next.stores, p) {
      assert StatusOk(net.stores, p) && Prefixes(net.stores[p.0], next.stores[p.0]);
      LowerBoundGrows(net.stores[p.0], next.stores[p.0], p.1);
    }
    forall p | p in next.replies ensures ReplyOk(next.stores, p) {
      assert ReplyOk(net.stores, p) && Prefixes(net.stores[p.0], next.stores[p.0]);
      assert LogOf(net.stores[p.0], p.1.origin) <= LogOf(next.stores[p.0], p.1.origin);
    }
  }

  /** A node stores a genuine rumor. */
  lemma StoreInv(net: Net, i: nat, r: Rumor)
    requires Inv(net) && i < |net.stores| && Genuine(net.issued, r)
    ensures Inv(net.(stores := net.stores[i := Added(net.stores[i], r)]))
  {
    assert StoreOk(net.issued, net.stores[i]);
    StoreGenuine(net.issued, net.stores[i], r);
    var next := net.(stores := net.stores[i := Added(net.stores[i], r)]);
    forall o | 0 <= o < |net.names| ensures OwnLog(next, o) == LogOf(next.issued, next.names[o]) {
      assert OwnLog(net, o) == LogOf(net.issued, net.names[o]);
    }
    InFlightKept(net, next);
  }

  /** An origin's next rumor extends what was issued. */
  lemma IssueOk(issued: Logs, r: Rumor)
    requires IssuedOk(issued) && IsNext(issued, r) && |LogOf(issued, r.origin)| + 1 < MAX32
    ensures IssuedOk(Added(issued, r)) && Prefixes(issued, Added(issued, r)) && Genuine(Added(issued, r), r)
  {
    AddedOk(issued, r);
    var next := Added(issued, r);
    assert LogOf(next, r.origin) == LogOf(issued, r.origin) + [r];
    forall name ensures |LogOf(next, name)| < MAX32 && LogOf(issued, name) <= LogOf(next, name) {
      assert |LogOf(issued, name)| < MAX32;
    }
  }

  /** The origin's own store, which holds all it has issued, takes the rumor. */
  lemma IssueStored(issued: Logs, s: Logs, r: Rumor)
    requires IssuedOk(issued) && StoreOk(issued, s) && IsNext(issued, r) && |LogOf(issued, r.origin)| + 1 < MAX32
    requires LogOf(s, r.origin) == LogOf(issued, r.origin)
    ensures StoreOk(Added(issued, r), Added(s, r)) && Prefixes(s, Added(s, r))
  {
    AddedOk(s, r);
    forall name ensures LogOf(Added(s, r), name) <= LogOf(Added(issued, r), name) {
      assert LogOf(s, name) <= LogOf(issued, name);
    }
  }

  lemma PrefixesGrow(s: Logs, issued: Logs, next: Logs)
    requires StoreOk(issued, s) && Prefixes(issued, next)
    ensures StoreOk(next, s)
  {
    forall name ensures LogOf(s, name) <= LogOf(next, name) {
      assert LogOf(s, name) <= LogOf(issued, name) <= LogOf(next, name);
    }
  }

  lemma GenuineGrows(issued: Logs, next: Logs, q: Rumor)
    requires Genuine(issued, q) && Prefixes(issued, next)
    ensures Genuine(next, q)
  {
    assert LogOf(issued, q.origin) <= LogOf(next, q.origin);
  }

  lemma OriginateInv(net: Net, i: nat, text: string)
    requires Inv(net) && i < |net.stores| && |OwnLog(net, i)| + 1 < MAX32
    ensures Inv(Next(net, Originate(i, text)))
  {
    var r := NewRumor(net, i, text);
    var next := Next(net, Originate(i, text));
    assert OwnLog(net, i) == LogOf(net.issued, net.names[i]);
    IssueOk(net.issued, r);
    IssueStored(net.issued, net.stores[i], r);
    forall j | 0 <= j < |net.stores| ensures StoreOk(next.issued, next.stores[j]) && Prefixes(net.stores[j], next.stores[j]) {
      assert StoreOk(net.issued, net.stores[j]);
      PrefixesGrow(net.stores[j], net.issued, next.issued);
    }
    forall o | 0 <= o < |net.names| ensures OwnLog(next, o) == LogOf(next.issued, next.names[o]) {
      assert OwnLog(net, o) == LogOf(net.issued, net.names[o]);
      assert o != i ==> net.names[o] != net.names[i];
    }
    forall q | q in net.rumors ensures Genuine(next.issued, q) {
      GenuineGrows(net.issued, next.issued, q);
    }
    InFlightKept(net, next);
  }

  lemma SendStatusInv(net: Net, i: nat, want: seq<PeerStatus>)
    requires Inv(net) && i < |net.stores| && IsStatus(want, net.stores[i])
    ensures Inv(net.(statuses := net.statuses + {(i, want)}))
  {
    assert StoreOk(net.issued, net.stores[i]);
    FreshStatus(net.issued, net.stores[i], want);
  }

  lemma SendRumorInv(net: Net, r: Rumor)
    requires Inv(net) && Genuine(net.issued, r)
    ensures Inv(net.(rumors := net.rumors + {r}))
  {
  }

  lemma SendReplyInv(net: Net, i: nat, sender: nat, want: seq<PeerStatus>, r: Rumor)
    requires Inv(net) && i < |net.stores| && (sender, want) in net.statuses && ToSend(net.stores[i], want, r)
    ensures Inv(net.(rumors := net.rumors + {r}, replies := net.replies + {(sender, r)}))
  {
    assert StoreOk(net.issued, net.stores[i]) && StatusOk(net.stores, (sender, want));
    ReplyNotPremature(net.issued, net.stores[i], net.stores[sender], want, r);
    SendRumorInv(net, r);
  }

  /** Every step keeps the invariant. */
  lemma StepInv(net: Net, a: Action)
    requires Inv(net) && Enabled(net, a)
    ensures Inv(Next(net, a))
  {
    match a
    case Originate(i, text) => OriginateInv(net, i, text);
    case SendStatus(i, want) => SendStatusInv(net, i, want);
    case DeliverRumor(i, r, feedback) =>
      SendStatusInv(net, i, feedback);
      StoreInv(net.(statuses := net.statuses + {(i, feedback)}), i, r);
    case DeliverStatus(i, sender, want, reply, ahead, answer) =>
      if reply != None {
        SendReplyInv(net, i, sender, want, reply.value);
      } else if ahead {
        SendStatusInv(net, i, answer);
      }
    case Spread(i, r) =>
      var s := net.stores[i];
      assert StoreOk(net.issued, s);
      var k :| 0 <= k < |LogOf(s, r.origin)| && LogOf(s, r.origin)[k] == r;
      HeldIsGenuine(net.issued, s, r.origin, k, r);
      SendRumorInv(net, r);
  }

  /** A client can always issue a rumor while its counter is below the limit, and the rumor is the one
      thing that is new: it continues the origin's log. */
  lemma AnyoneCanIssue(net: Net, i: nat, text: string)
    requires Inv(net) && i < |net.stores|
    ensures Enabled(net, Originate(i, text)) <==> |LogOf(net.issued, net.names[i])| + 1 < MAX32
    ensures |LogOf(net.issued, net.names[i])| + 1 < MAX32 ==>
              var next := Next(net, Originate(i, text));
              && LogOf(next.issued, net.names[i])
                 == LogOf(net.issued, net.names[i]) + [Rumor(net.names[i], |LogOf(net.issued, net.names[i])| + 1, text)]
              && LogOf(next.stores[i], net.names[i]) == LogOf(next.issued, net.names[i])
              && forall o :: o != net.names[i] ==> LogOf(next.issued, o) == LogOf(net.issued, o)
  {
    assert OwnLog(net, i) == LogOf(net.issued, net.names[i]);
  }

  // ---------- runs ----------

  ghost predicate IsRun(names: seq<string>, nets: seq<Net>, actions: seq<Action>) {
    && |nets| == |actions| + 1
    && nets[0] == Init(names)
    && forall t :: 0 <= t < |actions| ==> Enabled(nets[t], actions[t]) && nets[t + 1] == Next(nets[t], actions[t])
  }

  lemma {:induction false} RunInv(names: seq<string>, nets: seq<Net>, actions: seq<Action>, t: nat)
    requires IsRun(names, nets, actions) && t < |nets|
    requires forall i, j :: 0 <= i < j < |names| ==> names[i] != names[j]
    ensures Inv(nets[t]) && nets[t].names == names
  {
    if t > 0 {
      RunInv(names, nets, actions, t - 1);
      StepInv(nets[t - 1], actions[t - 1]);
    }
  }

  /** Prefix safety: in every run with distinct names, what a node holds of an origin is a beginning
      of what the origin has issued, without gaps; so equal clocks mean equal logs. */
  lemma PrefixSafety(names: seq<string>, nets: seq<Net>, actions: seq<Action>, t: nat, i: nat, j: nat, o: nat)
    requires IsRun(names, nets, actions) && t < |nets| && i < |names| && j < |names| && o < |names|
    requires forall x, y :: 0 <= x < y < |names| ==> names[x] != names[y]
    ensures |nets[t].stores| == |names|
    ensures LogOf(nets[t].stores[i], names[o]) <= LogOf(nets[t].stores[o], names[o])
    ensures |LogOf(nets[t].stores[i], names[o])| == |LogOf(nets[t].stores[j], names[o])| ==>
              LogOf(nets[t].stores[i], names[o]) == LogOf(nets[t].stores[j], names[o])
  {
    RunInv(names, nets, actions, t);
    assert StoreOk(nets[t].issued, nets[t].stores[i]) && StoreOk(nets[t].issued, nets[t].stores[j]);
    assert OwnLog(nets[t], o) == LogOf(nets[t].issued, names[o]);
    assert LogOf(nets[t].stores[i], names[o]) <= LogOf(nets[t].issued, names[o]);
    assert LogOf(nets[t].stores[j], names[o]) <= LogOf(nets[t].issued, names[o]);
  }

  /** Stale statuses never cause gaps: whenever a reply to a status of node i reaches node i, however
      late, AddRumorMessage finds it old or exactly next and never out of order. */
  lemma RepliesNeverPremature(names: seq<string>, nets: seq<Net>, actions: seq<Action>, t: nat, i: nat, r: Rumor)
    requires IsRun(names, nets, actions) && t < |nets| && (i, r) in nets[t].replies
    requires forall x, y :: 0 <= x < y < |names| ==> names[x] != names[y]
    ensures i < |nets[t].stores|
    ensures Pred32(r.id) < |LogOf(nets[t].stores[i], r.origin)| || IsNext(nets[t].stores[i], r)
  {
    RunInv(names, nets, actions, t);
    assert ReplyOk(nets[t].stores, (i, r));
  }

  lemma {:induction false} RepliesStay(names: seq<string>, nets: seq<Net>, actions: seq<Action>, s: nat, t: nat)
    requires IsRun(names, nets, actions) && s <= t < |nets|
    ensures nets[s].replies <= nets[t].replies
  {
    if s < t {
      RepliesStay(names, nets, actions, s, t - 1);
      assert Enabled(nets[t - 1], actions[t - 1]) && nets[t - 1 + 1] == Next(nets[t - 1], actions[t - 1]);
    }
  }

  /** Said of the run's own steps: whenever a node answers a status with a rumor, at any later time the
      rumor is old or exactly next at the node the status came from, and it is on its way. */
  lemma AnswersNeverPremature(names: seq<string>, nets: seq<Net>, actions: seq<Action>, s: nat, t: nat)
    requires IsRun(names, nets, actions) && s < t < |nets|
    requires forall x, y :: 0 <= x < y < |names| ==> names[x] != names[y]
    requires actions[s].DeliverStatus? && actions[s].reply != None
    ensures var r, to := actions[s].reply.value, actions[s].sender;
            && r in nets[s + 1].rumors
            && to < |nets[t].stores|
            && (Pred32(r.id) < |LogOf(nets[t].stores[to], r.origin)| || IsNext(nets[t].stores[to], r))
  {
    assert Enabled(nets[s], actions[s]) && nets[s + 1] == Next(nets[s], actions[s]);
    RepliesStay(names, nets, actions, s + 1, t);
    RepliesNeverPremature(names, nets, actions, t, actions[s].sender, actions[s].reply.value);
  }
}
