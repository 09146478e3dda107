// The exchange of statuses and rumors between two gossipers until they hold the same.

module AntiEntropy {
  import opened Wrappers
  import opened MessageStorages
  import GossipNetwork

  /** A status of x is on its way to y; it shows what x held when it was sent. */
  datatype Session = Session(x: Logs, y: Logs, seen: Logs)

  /** y compares the status: it sends a rumor, on which x sends a status back before storing the
      rumor, or, when only x is ahead, y sends its own status and the roles change. */
  ghost predicate Step(s: Session, t: Session, want: seq<PeerStatus>, rumor: Option<Rumor>, ahead: bool) {
    && IsStatus(want, s.seen)
    && DiffOk(s.y, want, rumor, ahead)
    && if rumor != None then t == Session(Added(s.x, rumor.value), s.y, s.x)
       else ahead && t == Session(s.y, s.x, s.y)
  }

  /** y finds nothing to send and nothing to ask for. */
  ghost predicate InSync(s: Session, want: seq<PeerStatus>) {
    IsStatus(want, s.seen) && DiffOk(s.y, want, None, false)
  }

  // ---------- the invariant ----------

  function Len(logs: Logs, o: string): nat {
    |LogOf(logs, o)|
  }

  /** The log of an origin at x and y, and as the status shows it: the two logs agree as far as both
      go, and the status is at most one rumor behind, a rumor that x has from y. */
  ghost predicate OriginOk(s: Session, o: string) {
    && (LogOf(s.x, o) <= LogOf(s.y, o) || LogOf(s.y, o) <= LogOf(s.x, o))
    && (Len(s.seen, o) == Len(s.x, o) || (Len(s.seen, o) + 1 == Len(s.x, o) && Len(s.x, o) <= Len(s.y, o)))
  }

  ghost predicate Inv(s: Session) {
    && LogsOk(s.x) && LogsOk(s.y) && LogsOk(s.seen)
    && forall o {:trigger OriginOk(s, o)} :: OriginOk(s, o)
  }

  /** The longer of the two logs of an origin. */
  function Longer(s: Session, o: string): seq<Rumor> {
    if Len(s.x, o) <= Len(s.y, o) then LogOf(s.y, o) else LogOf(s.x, o)
  }

  /** A rumor step: origin o is where the status shows fewer rumors than y has. */
  ghost predicate RumorFor(s: Session, o: string, r: Rumor) {
    Len(s.seen, o) < Len(s.y, o) && r == LogOf(s.y, o)[Len(s.seen, o)]
  }

  lemma RumorStep(s: Session, o: string, r: Rumor)
    requires Inv(s) && RumorFor(s, o, r)
    ensures r.origin == o && !Wraps(s.x, r)
    ensures IsNext(s.x, r) <==> Len(s.seen, o) == Len(s.x, o)
    ensures forall p :: Len(Added(s.x, r), p) == Len(s.x, p) + if p == o && IsNext(s.x, r) then 1 else 0
    ensures Inv(Session(Added(s.x, r), s.y, s.x))
    ensures forall p :: Longer(Session(Added(s.x, r), s.y, s.x), p) == Longer(s, p)
  {
    var t := Session(Added(s.x, r), s.y, s.x);
    assert LogOk(o, s.y[o]);
    assert OriginOk(s, o);
    AddedOk(s.x, r);
    forall p ensures OriginOk(t, p) && Longer(t, p) == Longer(s, p) {
      assert OriginOk(s, p);
    }
  }

  lemma SwitchStep(s: Session)
    requires Inv(s) && (forall o :: Len(s.y, o) <= Len(s.seen, o))
    ensures forall o :: Len(s.y, o) <= Len(s.x, o) == Len(s.seen, o)
    ensures Inv(Session(s.y, s.x, s.y))
    ensures forall o :: Longer(Session(s.y, s.x, s.y), o) == Longer(s, o)
  {
    var t := Session(s.y, s.x, s.y);
    forall o ensures OriginOk(t, o) && Longer(t, o) == Longer(s, o) && Len(s.y, o) <= Len(s.x, o) == Len(s.seen, o) {
      assert OriginOk(s, o);
    }
  }

  // ---------- the measure ----------

  function Distance(a: nat, b: nat): nat {
    if a <= b then b - a else a - b
  }

  /** The clocks' distance over the origins of a list. */
  function Gap(names: seq<string>, a: Logs, b: Logs): nat {
    if names == [] then 0 else Distance(Len(a, names[0]), Len(b, names[0])) + Gap(names[1..], a, b)
  }

  ghost predicate Covers(names: seq<string>, s: Session) {
    && (forall i, j :: 0 <= i < j < |names| ==> names[i] != names[j])
    && forall o :: o in s.x || o in s.y ==> o in names
  }

  /** Total clock gap first, then how far the status lags, then whether the other side must talk. */
  ghost function Measure(names: seq<string>, s: Session): nat {
    3 * Gap(names, s.x, s.y) + Gap(names, s.x, s.seen) + if exists o :: Len(s.x, o) < Len(s.y, o) then 0 else 1
  }

  lemma {:induction false} GapCongruent(names: seq<string>, a: Logs, b: Logs, c: Logs, d: Logs)
    requires forall o :: o in names ==> Len(a, o) == Len(c, o) && Len(b, o) == Len(d, o)
    ensures Gap(names, a, b) == Gap(names, c, d)
  {
    if names != [] {
      GapCongruent(names[1..], a, b, c, d);
    }
  }

  /** Changing the distance at one origin of the list changes the gap by as much. */
  lemma {:induction false} GapChange(names: seq<string>, a: Logs, b: Logs, c: Logs, d: Logs, o: string)
    requires (forall i, j :: 0 <= i < j < |names| ==> names[i] != names[j]) && o in names
    requires forall p :: p in names && p != o ==> Len(a, p) == Len(c, p) && Len(b, p) == Len(d, p)
    ensures Gap(names, c, d) == Gap(names, a, b) - Distance(Len(a, o), Len(b, o)) + Distance(Len(c, o), Len(d, o))
  {
    if names[0] == o {
      GapCongruent(names[1..], a, b, c, d);
    } else {
      GapChange(names[1..], a, b, c, d, o);
    }
  }

  lemma {:induction false} GapZero(names: seq<string>, a: Logs, b: Logs)
    requires forall o :: o in names ==> Len(a, o) == Len(b, o)
    ensures Gap(names, a, b) == 0
  {
    if names != [] {
      GapZero(names[1..], a, b);
    }
  }

  lemma {:induction false} GapPositive(names: seq<string>, a: Logs, b: Logs, o: string)
    requires o in names && Len(a, o) != Len(b, o)
    ensures Gap(names, a, b) > 0
  {
    if names[0] != o {
      GapPositive(names[1..], a, b, o);
    }
  }

  lemma {:induction false} GapSymmetric(names: seq<string>, a: Logs, b: Logs)
    ensures Gap(names, a, b) == Gap(names, b, a)
  {
    if names != [] {
      GapSymmetric(names[1..], a, b);
    }
  }

  lemma RumorDecreases(names: seq<string>, s: Session, o: string, r: Rumor)
    requires Inv(s) && Covers(names, s) && RumorFor(s, o, r)
    ensures Measure(names, Session(Added(s.x, r), s.y, s.x)) < Measure(names, s)
  {
    RumorStep(s, o, r);
    assert OriginOk(s, o);
    var t := Session(Added(s.x, r), s.y, s.x);
    assert o in s.y;
    if IsNext(s.x, r) {
      // the gap shrinks by one, the new status lags by one
      GapChange(names, s.x, s.y, t.x, t.y, o);
      GapZero(names, s.x, s.x);
      GapChange(names, s.x, s.x, t.x, t.seen, o);
    } else {
      // the rumor is old; the new status no longer lags
      assert t.x == s.x;
      GapZero(names, t.x, t.seen);
      GapPositive(names, s.x, s.seen, o);
    }
  }

  lemma SwitchDecreases(names: seq<string>, s: Session)
    requires Inv(s) && Covers(names, s)
    requires (forall o :: Len(s.y, o) <= Len(s.seen, o)) && exists o :: Len(s.y, o) < Len(s.seen, o)
    ensures Measure(names, Session(s.y, s.x, s.y)) < Measure(names, s)
  {
    SwitchStep(s);
    GapSymmetric(names, s.x, s.y);
    GapZero(names, s.y, s.y);
    var o :| Len(s.y, o) < Len(s.seen, o);
    assert Len(s.y, o) < Len(s.x, o);
  }

  // ---------- convergence ----------

  /** Every step keeps the invariant and the longer logs, and lowers the measure. */
  lemma StepConverges(names: seq<string>, s: Session, t: Session, want: seq<PeerStatus>, rumor: Option<Rumor>, ahead: bool)
    requires Inv(s) && Covers(names, s) && Step(s, t, want, rumor, ahead)
    ensures Inv(t) && Covers(names, t)
    ensures Measure(names, t) < Measure(names, s)
    ensures forall o :: Longer(t, o) == Longer(s, o)
  {
    DiffOnStatus(s.y, want, s.seen, rumor, ahead);
    if rumor != None {
      var o :| SendsFor(s.y, o, |LogOf(s.seen, o)|, rumor.value);
      RumorStep(s, o, rumor.value);
      RumorDecreases(names, s, o, rumor.value);
    } else {
      var o :| |LogOf(s.y, o)| < |LogOf(s.seen, o)|;
      assert Len(s.y, o) < Len(s.seen, o);
      forall p ensures Len(s.y, p) <= Len(s.seen, p) {
        assert |LogOf(s.y, p)| <= |LogOf(s.seen, p)|;
      }
      SwitchStep(s);
      SwitchDecreases(names, s);
    }
  }

  /** Unless y is in sync with the status there is a next step. */
  lemma Progress(s: Session, want: seq<PeerStatus>, rumor: Option<Rumor>, ahead: bool)
    requires IsStatus(want, s.seen) && DiffOk(s.y, want, rumor, ahead)
    ensures InSync(s, want) || exists t :: Step(s, t, want, rumor, ahead)
  {
    if rumor != None {
      assert Step(s, Session(Added(s.x, rumor.value), s.y, s.x), want, rumor, ahead);
    } else if ahead {
      assert Step(s, Session(s.y, s.x, s.y), want, rumor, ahead);
    }
  }

  /** When y reports to be in sync, even on a stale status, the two hold the same. */
  lemma InSyncMeansEqual(s: Session, want: seq<PeerStatus>, o: string)
    requires Inv(s) && InSync(s, want)
    ensures LogOf(s.x, o) == LogOf(s.y, o)
  {
    DiffOnStatus(s.y, want, s.seen, None, false);
    assert OriginOk(s, o);
    assert |LogOf(s.y, o)| == |LogOf(s.seen, o)|;
  }

  ghost predicate Moves(s: Session, t: Session) {
    exists want, rumor, ahead :: Step(s, t, want, rumor, ahead)
  }

  /** The exchange cannot go on. */
  ghost predicate Final(s: Session) {
    forall t :: !Moves(s, t)
  }

  ghost predicate IsRun(states: seq<Session>) {
    states != [] && forall i :: 0 <= i < |states| - 1 ==> Moves(states[i], states[i + 1])
  }

  lemma MoveConverges(names: seq<string>, s: Session, t: Session)
    requires Inv(s) && Covers(names, s) && Moves(s, t)
    ensures Inv(t) && Covers(names, t)
    ensures Measure(names, t) < Measure(names, s)
    ensures forall o :: Longer(t, o) == Longer(s, o)
  {
    var want, rumor, ahead :| Step(s, t, want, rumor, ahead);
    StepConverges(names, s, t, want, rumor, ahead);
  }

  lemma {:induction false} RunConverges(names: seq<string>, states: seq<Session>)
    requires IsRun(states) && Inv(states[0]) && Covers(names, states[0])
    ensures Inv(states[|states| - 1]) && Covers(names, states[|states| - 1])
    ensures |states| - 1 + Measure(names, states[|states| - 1]) <= Measure(names, states[0])
    ensures forall o :: Longer(states[|states| - 1], o) == Longer(states[0], o)
    decreases |states|
  {
    var n := |states| - 1;
    if n > 0 {
      var before := states[..n];
      RunConverges(names, before);
      assert Moves(states[n - 1], states[n - 1 + 1]);
      MoveConverges(names, states[n - 1], states[n]);
    }
  }

  // ---------- exchanges that cannot go on ----------

  /** The elements of a set in some order. */
  lemma {:induction false} Enumerated(todo: set<string>) returns (ks: seq<string>)
    ensures forall i, j :: 0 <= i < j < |ks| ==> ks[i] != ks[j]
    ensures forall o :: o in todo <==> o in ks
    decreases |todo|
  {
    ks := [];
    if todo != {} {
      var o :| o in todo;
      var rest := Enumerated(todo - {o});
      ks := rest + [o];
    }
  }

  function StatusEntryOf(logs: Logs, o: string): PeerStatus {
    PeerStatus(o, if |LogOf(logs, o)| <= MAX32 then Succ32(|LogOf(logs, o)|) else 0)
  }

  /** Every storage has a status. */
  lemma StatusExists(logs: Logs)
    requires LogsOk(logs)
    ensures exists want :: IsStatus(want, logs)
  {
    var ks := Enumerated(logs.Keys);
    var want := seq(|ks|, i requires 0 <= i < |ks| => StatusEntryOf(logs, ks[i]));
    forall o ensures o in logs <==> Lists(want, o) {
      if o in ks {
        var i :| 0 <= i < |ks| && ks[i] == o;
        assert want[i].identifier == o;
      }
    }
    forall i | 0 <= i < |want| ensures |LogOf(logs, want[i].identifier)| <= MAX32 {
      assert ks[i] in ks;
      assert LogOk(ks[i], logs[ks[i]]);
    }
    assert IsStatus(want, logs);
  }

  /** Diff has an answer to every status. */
  lemma DiffExists(logs: Logs, want: seq<PeerStatus>)
    requires LogsOk(logs)
    ensures exists rumor, ahead :: DiffOk(logs, want, rumor, ahead)
  {
    if NothingToSend(logs, want) {
      assert DiffOk(logs, want, None, OtherAhead(logs, want));
    } else if i :| 0 <= i < |want| && |LogOf(logs, want[i].identifier)| > Pred32(want[i].nextId) {
      var r := LogOf(logs, want[i].identifier)[Pred32(want[i].nextId)];
      assert SendsFor(logs, want[i].identifier, Pred32(want[i].nextId), r);
      assert DiffOk(logs, want, Some(r), false);
    } else {
      var o :| !Lists(want, o) && |LogOf(logs, o)| != 0;
      var r := LogOf(logs, o)[0];
      assert SendsFor(logs, o, 0, r);
      assert DiffOk(logs, want, Some(r), false);
    }
  }

  /** An exchange that cannot go on has ended in sync. */
  lemma FinalIsInSync(s: Session)
    requires Inv(s) && Final(s)
    ensures exists want :: InSync(s, want)
  {
    StatusExists(s.seen);
    var want :| IsStatus(want, s.seen);
    DiffExists(s.y, want);
    var rumor, ahead :| DiffOk(s.y, want, rumor, ahead);
    Progress(s, want, rumor, ahead);
    if !InSync(s, want) {
      var t :| Step(s, t, want, rumor, ahead);
      assert Moves(s, t);
    }
  }

  /** And an exchange in sync cannot go on: being final and being in sync are the same. */
  lemma FinalIffInSync(s: Session)
    requires Inv(s)
    ensures Final(s) <==> exists want :: InSync(s, want)
  {
    if Final(s) {
      FinalIsInSync(s);
    }
    if exists want :: InSync(s, want) {
      var want :| InSync(s, want);
      DiffOnStatus(s.y, want, s.seen, None, false);
      forall t, w, rumor, ahead ensures !Step(s, t, w, rumor, ahead) {
        if Step(s, t, w, rumor, ahead) {
          DiffOnStatus(s.y, w, s.seen, rumor, ahead);
        }
      }
    }
  }

  /** From every session some exchange does come to an end. */
  lemma {:induction false} FinalReached(names: seq<string>, s: Session) returns (states: seq<Session>)
    requires Inv(s) && Covers(names, s)
    ensures IsRun(states) && states[0] == s
    ensures Final(states[|states| - 1])
    decreases Measure(names, s)
  {
    if t :| Moves(s, t) {
      MoveConverges(names, s, t);
      var rest := FinalReached(names, t);
      states := [s] + rest;
      forall i | 0 <= i < |states| - 1 ensures Moves(states[i], states[i + 1]) {
        if i > 0 {
          assert Moves(rest[i - 1], rest[i - 1 + 1]);
        }
      }
      assert states[|states| - 1] == rest[|rest| - 1];
    } else {
      states := [s];
    }
  }

  /** Anti-entropy converges: from any two gossipers with agreeing histories and a fresh status, an
      exchange takes at most 3 * gap + 1 steps, and once it cannot go on both hold, for every origin,
      the longer of the two logs they started with: their clocks are the pointwise maximum. */
  lemma Converges(names: seq<string>, states: seq<Session>, o: string)
    requires IsRun(states) && Inv(states[0]) && Covers(names, states[0]) && states[0].seen == states[0].x
    ensures |states| - 1 <= 3 * Gap(names, states[0].x, states[0].y) + 1
    ensures var last := states[|states| - 1];
            Final(last) ==> LogOf(last.x, o) == LogOf(last.y, o) == Longer(states[0], o)
    ensures var last := states[|states| - 1];
            forall want :: InSync(last, want) ==> LogOf(last.x, o) == LogOf(last.y, o) == Longer(states[0], o)
  {
    RunConverges(names, states);
    GapZero(names, states[0].x, states[0].seen);
    var last := states[|states| - 1];
    if Final(last) {
      FinalIsInSync(last);
    }
    if want :| InSync(last, want) {
      InSyncMeansEqual(last, want, o);
      assert Longer(last, o) == LogOf(last.y, o);
    }
  }

  lemma TwoNodesOk(issued: Logs, x: Logs, y: Logs)
    requires GossipNetwork.StoreOk(issued, x) && GossipNetwork.StoreOk(issued, y)
    ensures Inv(Session(x, y, x))
  {
    forall o ensures OriginOk(Session(x, y, x), o) {
      assert LogOf(x, o) <= LogOf(issued, o) && LogOf(y, o) <= LogOf(issued, o);
    }
  }

  /** Any two nodes of any run of the network can start an exchange at any moment: what they hold
      are beginnings of common logs. */
  lemma AnyTwoNodesConverge(
    names: seq<string>, nets: seq<GossipNetwork.Net>, actions: seq<GossipNetwork.Action>, t: nat, i: nat, j: nat)
    requires GossipNetwork.IsRun(names, nets, actions) && t < |nets| && i < |names| && j < |names|
    requires forall x, y :: 0 <= x < y < |names| ==> names[x] != names[y]
    ensures |nets[t].stores| == |names|
    ensures Inv(Session(nets[t].stores[i], nets[t].stores[j], nets[t].stores[i]))
  {
    GossipNetwork.RunInv(names, nets, actions, t);
    TwoNodesOk(nets[t].issued, nets[t].stores[i], nets[t].stores[j]);
  }
}
