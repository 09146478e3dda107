// The registry of rumor-mongering goroutines, one channel per peer, shared by the message processor
// and the goroutines. A state machine over the steps that other threads can observe.

module MongerRegistry {

  type Peer = string

  /** Spawned, waiting for a status or the timeout, past the timeout, past the registry. */
  datatype Phase = Starting | Waiting | TimedOut | Done

  /** The message processor holds the registry's lock from finding the channel until it has sent the
      status on the unbuffered channel and deleted the entry. */
  datatype Processor = Idle | Sending(peer: Peer) | Handed(peer: Peer)

  datatype Monger = Monger(peer: Peer, phase: Phase)

  /** Goroutines are numbered; the registry holds the number of the goroutine whose channel it is. */
  datatype State = State(registry: map<Peer, nat>, mongers: map<nat, Monger>, processor: Processor)

  datatype Action =
    | Spread(g: nat, peer: Peer)  // spreadTheRumor: register a new goroutine, unless one is registered
    | Start(g: nat)
    | Timeout(g: nat)
    | CleanUp(g: nat)             // the timed-out goroutine deletes its peer's entry
    | Take(peer: Peer)            // a status arrives from a registered peer
    | Hand                        // the goroutine receives it
    | Release                     // the processor deletes the entry and unlocks

  const INITIAL := State(map[], map[], Idle)

  predicate InPhase(s: State, g: nat, phase: Phase) {
    g in s.mongers && s.mongers[g].phase == phase
  }

  predicate Enabled(s: State, a: Action) {
    match a
    case Spread(g, p) => s.processor == Idle && g !in s.mongers
    case Start(g) => InPhase(s, g, Starting)
    case Timeout(g) => InPhase(s, g, Waiting)
    case CleanUp(g) => s.processor == Idle && InPhase(s, g, TimedOut)
    case Take(p) => s.processor == Idle && p in s.registry
    case Hand => s.processor.Sending? && s.processor.peer in s.registry && InPhase(s, s.registry[s.processor.peer], Waiting)
    case Release => s.processor.Handed?
  }

  function Move(s: State, g: nat, phase: Phase): State
    requires g in s.mongers
  {
    s.(mongers := s.mongers[g := s.mongers[g].(phase := phase)])
  }

  function Next(s: State, a: Action): State
    requires Enabled(s, a)
  {
    match a
    case Spread(g, p) =>
      if p in s.registry then s
      else s.(registry := s.registry[p := g], mongers := s.mongers[g := Monger(p, Starting)])
    case Start(g) => Move(s, g, Waiting)
    case Timeout(g) => Move(s, g, TimedOut)
    case CleanUp(g) => Move(s, g, Done).(registry := s.registry - {s.mongers[g].peer})
    case Take(p) => s.(processor := Sending(p))
    case Hand => Move(s, s.registry[s.processor.peer], Done).(processor := Handed(s.processor.peer))
    case Release => s.(registry := s.registry - {s.processor.peer}, processor := Idle)
  }

  /** Waiting for its peer's status or timed out, and not yet past the registry. */
  predicate Active(s: State, g: nat) {
    g in s.mongers && s.mongers[g].phase != Done
  }

  /** Every active goroutine's channel is the one registered for its peer; every registered channel
      belongs to an active goroutine of that peer, except while the processor is about to delete it. */
  ghost predicate Inv(s: State) {
    && (forall g :: Active(s, g) ==> s.mongers[g].peer in s.registry && s.registry[s.mongers[g].peer] == g)
    && (forall p :: p in s.registry ==> s.registry[p] in s.mongers && s.mongers[s.registry[p]].peer == p)
    && (forall p :: p in s.registry && !Active(s, s.registry[p]) ==> s.processor == Handed(p))
    && (s.processor.Sending? ==> s.processor.peer in s.registry)
    && (s.processor.Handed? ==> s.processor.peer in s.registry && !Active(s, s.registry[s.processor.peer]))
  }

  lemma StepInv(s: State, a: Action)
    requires Inv(s) && Enabled(s, a)
    ensures Inv(Next(s, a))
  {
    var t := Next(s, a);
    forall g | Active(t, g) ensures t.mongers[g].peer in t.registry && t.registry[t.mongers[g].peer] == g {
      if !(a.Spread? && g == a.g) {
        assert Active(s, g);
      }
    }
  }

  /** A sequence of steps from any state, and one from the initial state. */
  ghost predicate IsPath(states: seq<State>, actions: seq<Action>) {
    && |states| == |actions| + 1
    && forall i :: 0 <= i < |actions| ==> Enabled(states[i], actions[i]) && states[i + 1] == Next(states[i], actions[i])
  }

  ghost predicate IsRun(states: seq<State>, actions: seq<Action>) {
    IsPath(states, actions) && states[0] == INITIAL
  }

  lemma {:induction false} RunInv(states: seq<State>, actions: seq<Action>, i: nat)
    requires IsRun(states, actions) && i < |states|
    ensures Inv(states[i])
  {
    if i > 0 {
      RunInv(states, actions, i - 1);
      StepInv(states[i - 1], actions[i - 1]);
    }
  }

  /** In every interleaving a peer has at most one active goroutine. */
  lemma OneMongerPerPeer(states: seq<State>, actions: seq<Action>, i: nat, g: nat, h: nat)
    requires IsRun(states, actions) && i < |states|
    requires Active(states[i], g) && Active(states[i], h) && states[i].mongers[g].peer == states[i].mongers[h].peer
    ensures g == h
  {
    RunInv(states, actions, i);
  }

  /** A timeout deletes the goroutine's own entry and no other: afterwards its peer is free and every
      other active goroutine is still registered. */
  lemma TimeoutDeletesOwnEntry(states: seq<State>, actions: seq<Action>, i: nat)
    requires IsRun(states, actions) && i < |actions| && actions[i].CleanUp?
    ensures states[i].mongers[actions[i].g].peer in states[i].registry
    ensures states[i].registry[states[i].mongers[actions[i].g].peer] == actions[i].g
    ensures states[i].mongers[actions[i].g].peer !in states[i + 1].registry && !Active(states[i + 1], actions[i].g)
    ensures forall h :: h != actions[i].g && Active(states[i], h) ==>
              Active(states[i + 1], h) && states[i + 1].mongers[h].peer in states[i + 1].registry
              && states[i + 1].registry[states[i + 1].mongers[h].peer] == h
  {
    RunInv(states, actions, i);
    RunInv(states, actions, i + 1);
    var s, g := states[i], actions[i].g;
    assert Enabled(s, actions[i]);
    assert Active(s, g);
    forall h | h != g && Active(s, h) ensures Active(states[i + 1], h) {
    }
  }

  /** Whenever the lock is free, the registered peers are exactly the peers of active goroutines. */
  lemma RegistryIsExact(states: seq<State>, actions: seq<Action>, i: nat, p: Peer)
    requires IsRun(states, actions) && i < |states| && states[i].processor == Idle
    ensures p in states[i].registry <==> exists g :: Active(states[i], g) && states[i].mongers[g].peer == p
  {
    RunInv(states, actions, i);
    if p in states[i].registry {
      assert Active(states[i], states[i].registry[p]);
    }
  }

  // ---------- handing a status over ----------

  /** The processor holds the lock and sends to a goroutine that has timed out. */
  ghost predicate Stuck(s: State, p: Peer) {
    s.processor == Sending(p) && p in s.registry && InPhase(s, s.registry[p], TimedOut)
  }

  /** Some further steps end with the status handed over. */
  ghost predicate CanBeHanded(s: State, p: Peer) {
    exists states, actions :: HandsOver(s, p, states, actions)
  }

  ghost predicate HandsOver(s: State, p: Peer, states: seq<State>, actions: seq<Action>) {
    IsPath(states, actions) && states[0] == s && states[|actions|].processor == Handed(p)
  }

  /** The send blocks while holding the lock: whatever happens, the status is not handed over and no
      entry changes. */
  lemma {:induction false} StuckStays(states: seq<State>, actions: seq<Action>, j: nat, p: Peer)
    requires IsPath(states, actions) && j < |states| && Stuck(states[0], p)
    ensures Stuck(states[j], p) && states[j].registry == states[0].registry
  {
    if j > 0 {
      StuckStays(states, actions, j - 1, p);
      assert Enabled(states[j - 1], actions[j - 1]) && states[j - 1 + 1] == Next(states[j - 1], actions[j - 1]);
    }
  }

  lemma TimedOutHandOffIsStuck(states: seq<State>, actions: seq<Action>, i: nat, j: nat, p: Peer)
    requires IsRun(states, actions) && i <= j < |states|
    requires states[i].processor == Sending(p) && p in states[i].registry && InPhase(states[i], states[i].registry[p], TimedOut)
    ensures states[j].processor == Sending(p) && states[j].registry == states[i].registry
    ensures InPhase(states[j], states[i].registry[p], TimedOut)
  {
    var ss, aa := states[i..], actions[i..];
    forall k | 0 <= k < |aa| ensures Enabled(ss[k], aa[k]) && ss[k + 1] == Next(ss[k], aa[k]) {
      assert aa[k] == actions[i + k] && ss[k] == states[i + k] && ss[k + 1] == states[i + k + 1];
    }
    StuckStays(ss, aa, j - i, p);
  }

  /** The hand-over that never ends does occur: a status that arrives between the goroutine's timeout
      and its clean-up is taken and can never be handed over. */
  lemma LateStatusIsStuck(p: Peer)
    ensures exists states, actions ::
              IsRun(states, actions) && |actions| == 4 && actions[3] == Take(p) && Stuck(states[4], p)
  {
    var actions := [Spread(0, p), Start(0), Timeout(0), Take(p)];
    var s1 := Next(INITIAL, actions[0]);
    var s2 := Next(s1, actions[1]);
    var s3 := Next(s2, actions[2]);
    var s4 := Next(s3, actions[3]);
    var states := [INITIAL, s1, s2, s3, s4];
    forall i | 0 <= i < 4 ensures Enabled(states[i], actions[i]) && states[i + 1] == Next(states[i], actions[i]) {
      if i == 0 {} else if i == 1 {} else if i == 2 {} else {}
    }
    assert IsRun(states, actions) && Stuck(states[4], p);
  }

  /** In every run, while a status is being handed over: some continuation completes the hand-over if
      and only if the goroutine has not timed out. */
  lemma HandOverEndsIff(states: seq<State>, actions: seq<Action>, i: nat, p: Peer)
    requires IsRun(states, actions) && i < |states| && states[i].processor == Sending(p)
    ensures p in states[i].registry
    ensures CanBeHanded(states[i], p) <==> !InPhase(states[i], states[i].registry[p], TimedOut)
  {
    RunInv(states, actions, i);
    var s := states[i];
    if Stuck(s, p) {
      forall ss: seq<State>, aa: seq<Action> | IsPath(ss, aa) && ss[0] == s ensures ss[|aa|].processor != Handed(p) {
        StuckStays(ss, aa, |aa|, p);
      }
    } else {
      var g := s.registry[p];
      assert Active(s, g);
      if InPhase(s, g, Waiting) {
        assert HandsOver(s, p, [s, Next(s, Hand)], [Hand]);
      } else {
        var t := Next(s, Start(g));
        HandsOverInTwo(s, t, p, g);
      }
    }
  }

  lemma HandsOverInTwo(s: State, t: State, p: Peer, g: nat)
    requires s.processor == Sending(p) && p in s.registry && s.registry[p] == g && InPhase(s, g, Starting)
    requires t == Next(s, Start(g))
    ensures CanBeHanded(s, p)
  {
    var states, actions := [s, t, Next(t, Hand)], [Start(g), Hand];
    forall i | 0 <= i < 2 ensures Enabled(states[i], actions[i]) && states[i + 1] == Next(states[i], actions[i]) {
      if i == 0 {} else {}
    }
    assert HandsOver(s, p, states, actions);
  }

  /** At the moment a status is taken: it is lost for certain exactly when the registered goroutine
      has timed out by then. */
  lemma TakenForNothingIff(states: seq<State>, actions: seq<Action>, i: nat, p: Peer)
    requires IsRun(states, actions) && i < |actions| && actions[i] == Take(p)
    ensures p in states[i].registry
    ensures !CanBeHanded(states[i + 1], p) <==> InPhase(states[i], states[i].registry[p], TimedOut)
  {
    assert Enabled(states[i], actions[i]) && states[i + 1] == Next(states[i], actions[i]);
    HandOverEndsIff(states, actions, i + 1, p);
  }

  // ---------- the lock and the entries become free again ----------

  /** Some further steps end with the lock free and the peer without an entry. */
  ghost predicate CanBeFreed(s: State, p: Peer) {
    exists states, actions :: Frees(s, p, states, actions)
  }

  ghost predicate Frees(s: State, p: Peer, states: seq<State>, actions: seq<Action>) {
    IsPath(states, actions) && states[0] == s && states[|actions|].processor == Idle && p !in states[|actions|].registry
  }

  /** A step that can be followed by freeing the peer. */
  lemma FreedAfter(s: State, a: Action, p: Peer)
    requires Enabled(s, a) && CanBeFreed(Next(s, a), p)
    ensures CanBeFreed(s, p)
  {
    var states, actions :| Frees(Next(s, a), p, states, actions);
    var ss, aa := [s] + states, [a] + actions;
    forall i | 0 <= i < |aa| ensures Enabled(ss[i], aa[i]) && ss[i + 1] == Next(ss[i], aa[i]) {
      if i > 0 {
        assert Enabled(states[i - 1], actions[i - 1]) && states[i - 1 + 1] == Next(states[i - 1], actions[i - 1]);
      }
    }
    assert Frees(s, p, ss, aa);
  }

  /** With the lock free the peer's goroutine times out and cleans up. */
  lemma FreedFromIdle(s: State, p: Peer)
    requires Inv(s) && s.processor == Idle
    ensures CanBeFreed(s, p)
  {
    if p !in s.registry {
      assert Frees(s, p, [s], []);
      return;
    }
    var g := s.registry[p];
    assert Active(s, g);
    if InPhase(s, g, TimedOut) {
      FreedByCleanUp(s, p, g);
    } else if InPhase(s, g, Waiting) {
      FreedByTimeout(s, p, g);
    } else {
      StepInv(s, Start(g));
      FreedByTimeout(Next(s, Start(g)), p, g);
      FreedAfter(s, Start(g), p);
    }
  }

  lemma FreedByCleanUp(s: State, p: Peer, g: nat)
    requires Inv(s) && s.processor == Idle && p in s.registry && s.registry[p] == g && InPhase(s, g, TimedOut)
    ensures CanBeFreed(s, p)
  {
    assert Frees(Next(s, CleanUp(g)), p, [Next(s, CleanUp(g))], []);
    FreedAfter(s, CleanUp(g), p);
  }

  lemma FreedByTimeout(s: State, p: Peer, g: nat)
    requires Inv(s) && s.processor == Idle && p in s.registry && s.registry[p] == g && InPhase(s, g, Waiting)
    ensures CanBeFreed(s, p)
  {
    StepInv(s, Timeout(g));
    FreedByCleanUp(Next(s, Timeout(g)), p, g);
    FreedAfter(s, Timeout(g), p);
  }

  /** A status that has been handed over: the processor deletes its peer's entry and unlocks. */
  lemma FreedFromHanded(s: State, p: Peer)
    requires Inv(s) && s.processor.Handed?
    ensures CanBeFreed(s, p)
  {
    StepInv(s, Release);
    FreedFromIdle(Next(s, Release), p);
    FreedAfter(s, Release, p);
  }

  lemma FreedFromSending(s: State, p: Peer)
    requires Inv(s) && s.processor.Sending? && InPhase(s, s.registry[s.processor.peer], Waiting)
    ensures CanBeFreed(s, p)
  {
    StepInv(s, Hand);
    FreedFromHanded(Next(s, Hand), p);
    FreedAfter(s, Hand, p);
  }

  /** In every run, at any moment: some continuation frees the lock and any given peer if and only if the
      processor is not stuck. So a peer's entry never stays for ever while nobody is stuck, and a stuck
      processor holds up every peer. */
  lemma FreedIff(states: seq<State>, actions: seq<Action>, i: nat, p: Peer)
    requires IsRun(states, actions) && i < |states|
    ensures CanBeFreed(states[i], p) <==> !(states[i].processor.Sending? && Stuck(states[i], states[i].processor.peer))
  {
    RunInv(states, actions, i);
    var s := states[i];
    match s.processor
    case Idle => FreedFromIdle(s, p);
    case Handed(_) => FreedFromHanded(s, p);
    case Sending(q) =>
      var g := s.registry[q];
      assert Active(s, g);
      if Stuck(s, q) {
        forall ss: seq<State>, aa: seq<Action> | IsPath(ss, aa) && ss[0] == s ensures ss[|aa|].processor != Idle {
          StuckStays(ss, aa, |aa|, q);
        }
      } else if InPhase(s, g, Waiting) {
        FreedFromSending(s, p);
      } else {
        StepInv(s, Start(g));
        FreedFromSending(Next(s, Start(g)), p);
        FreedAfter(s, Start(g), p);
      }
  }

  lemma {:induction false} FreshNumber(used: set<nat>) returns (g: nat)
    ensures forall h :: h in used ==> h < g
    decreases |used|
  {
    g := 0;
    if used != {} {
      var h :| h in used;
      var k := FreshNumber(used - {h});
      g := if h < k then k else h + 1;
      assert forall x :: x in used && x != h ==> x in used - {h};
    }
  }

  /** Whoever else has goroutines at work: while the lock is free a peer without an entry can be given a
      new goroutine, and a peer with one cannot; its status is taken exactly when it has an active one. */
  lemma SpreadsIffFree(states: seq<State>, actions: seq<Action>, i: nat, p: Peer)
    requires IsRun(states, actions) && i < |states| && states[i].processor == Idle
    ensures exists g :: Enabled(states[i], Spread(g, p))
    ensures Enabled(states[i], Take(p)) <==> exists g :: Active(states[i], g) && states[i].mongers[g].peer == p
    ensures forall g :: Enabled(states[i], Spread(g, p)) ==>
              (Active(Next(states[i], Spread(g, p)), g) <==> p !in states[i].registry)
    ensures forall g, h :: Enabled(states[i], Spread(g, p)) && Active(states[i], h) ==> Active(Next(states[i], Spread(g, p)), h)
  {
    var g := FreshNumber(states[i].mongers.Keys);
    RegistryIsExact(states, actions, i, p);
    assert Enabled(states[i], Spread(g, p));
  }
}
