// The budget of a search request: how processSearchRequest splits it over the peers, and what a
// budget allows over a whole run.

module SearchBudget {

  const TWO63 := 0x8000_0000_0000_0000
  const TWO64 := 0x1_0000_0000_0000_0000

  type uint64 = x: int | 0 <= x < TWO64
  type int64 = x: int | -TWO63 <= x < TWO63

  /** The conversions int(x) and uint64(x). */
  function AsInt(x: uint64): int64 {
    if x < TWO63 then x else x - TWO64
  }

  function AsUint(x: int64): uint64 {
    if x >= 0 then x else x + TWO64
  }

  /** Go's division truncates towards zero and its remainder has the dividend's sign. */
  function GoDiv(a: int, n: int): int
    requires n > 0
  {
    if a >= 0 then a / n else -(-a / n)
  }

  function GoMod(a: int, n: int): int
    requires n > 0
  {
    if a >= 0 then a % n else -(-a % n)
  }

  function Sum(s: seq<int>): int {
    if s == [] then 0 else Sum(s[..|s| - 1]) + s[|s| - 1]
  }

  /** The shares sent to the n peers, in the order of the peer list. */
  method Split(budget: int, n: nat) returns (shares: seq<int>)
    requires n > 0
    ensures shares == Shares(budget, n)
  {
    shares := [];
    var residual := GoMod(budget, n);
    for i := 0 to n
      invariant |shares| == i
      invariant residual == if GoMod(budget, n) > i then GoMod(budget, n) - i else if GoMod(budget, n) > 0 then 0 else GoMod(budget, n)
      invariant forall j :: 0 <= j < i ==> shares[j] == Share(budget, n, j)
    {
      var newbudget := GoDiv(budget, n);
      if residual > 0 {
        newbudget := newbudget + 1;
        residual := residual - 1;
      }
      shares := shares + [newbudget];
    }
  }

  function Share(budget: int, n: nat, i: nat): int
    requires n > 0
  {
    GoDiv(budget, n) + if i < GoMod(budget, n) then 1 else 0
  }

  function Shares(budget: int, n: nat): (shares: seq<int>)
    requires n > 0
    ensures |shares| == n
  {
    seq(n, i requires 0 <= i => Share(budget, n, i))
  }

  lemma {:induction false} SumOfShares(budget: int, n: nat, shares: seq<int>)
    requires n > 0 && |shares| <= n
    requires forall i :: 0 <= i < |shares| ==> shares[i] == Share(budget, n, i)
    ensures Sum(shares) == |shares| * GoDiv(budget, n) +
            if GoMod(budget, n) <= 0 then 0 else if |shares| <= GoMod(budget, n) then |shares| else GoMod(budget, n)
    decreases |shares|
  {
    if shares != [] {
      var m := |shares| - 1;
      SumOfShares(budget, n, shares[..m]);
      assert (m + 1) * GoDiv(budget, n) == m * GoDiv(budget, n) + GoDiv(budget, n);
    }
  }

  /** The shares add up to the budget exactly when the budget is not negative or divides evenly;
      they differ by at most one in any case. */
  lemma SplitExactIff(budget: int, n: nat)
    requires n > 0
    ensures Sum(Shares(budget, n)) == budget <==> budget >= 0 || budget % n == 0
    ensures forall i, j :: 0 <= i < n && 0 <= j < n ==> Shares(budget, n)[i] - Shares(budget, n)[j] <= 1
  {
    SumOfShares(budget, n, Shares(budget, n));
    if budget >= 0 {
      assert budget == n * (budget / n) + budget % n;
    } else {
      var c := -budget;
      assert c == n * (c / n) + c % n;
      assert n * -(c / n) == -(n * (c / n));
      NegativeRemainder(c, n);
    }
  }

  lemma NegativeRemainder(c: int, n: nat)
    requires c > 0 && n > 0
    ensures (-c) % n == 0 <==> c % n == 0
  {
    var q := c / n;
    assert c == n * q + c % n;
    if c % n == 0 {
      assert n * (-q) == -(n * q);
      RemainderUnique(-c, n, -q, 0);
    } else {
      assert n * (-q - 1) == -(n * q) - n;
      RemainderUnique(-c, n, -q - 1, n - c % n);
    }
  }

  lemma MultipleGrows(n: int, d: int)
    requires n > 0
    ensures d >= 1 ==> n * d >= n
    ensures d <= -1 ==> n * d <= -n
  {
    if d >= 1 {
      assert n * (d - 1) >= 0;
    } else if d <= -1 {
      assert n * (-d - 1) >= 0;
    }
  }

  lemma RemainderUnique(a: int, n: int, q: int, r: int)
    requires n > 0 && a == n * q + r && 0 <= r < n
    ensures a % n == r
  {
    var d := a / n - q;
    assert a == n * (a / n) + a % n;
    assert n * d == n * (a / n) - n * q;
    MultipleGrows(n, d);
  }

  lemma QuotientLess(b: int, n: int)
    requires b > 0 && n > 1
    ensures 0 <= b / n < b
  {
    assert b == n * (b / n) + b % n;
    if b / n > 0 {
      MultipleGrows(b / n, n - 1);
      assert n * (b / n) == (b / n) * (n - 1) + b / n;
    }
  }

  lemma ShareBounds(budget: int, n: nat, i: nat)
    requires i < n && budget >= 0
    ensures 0 <= Share(budget, n, i) <= budget
  {
    if n == 1 {
      assert budget == budget / 1 + budget % 1;
    } else if budget == 0 {
      assert 0 / n == 0 && 0 % n == 0;
    } else {
      QuotientLess(budget, n);
    }
  }

  lemma SharesNonNegative(budget: int, n: nat)
    requires n > 0 && 0 <= budget < TWO63
    ensures forall i :: 0 <= i < n ==> 0 <= Shares(budget, n)[i] < TWO63
  {
    forall i | 0 <= i < n ensures 0 <= Shares(budget, n)[i] < TWO63 {
      ShareBounds(budget, n, i);
    }
  }

  /** What the receiver reads is what the sender computed. */
  lemma WireRoundTrip(x: int64, y: uint64)
    ensures AsInt(AsUint(x)) == x && AsUint(AsInt(y)) == y
  {
  }

  // ---------- runs ----------

  /** A request on its way, to the search's origin or to another node. */
  datatype Msg = Msg(toOrigin: bool, budget: uint64)

  /** delivered counts the deliveries of requests with a positive budget at nodes other than the origin,
      repeated the budget in the copies the network made of packets. */
  datatype State = State(inFlight: seq<Msg>, delivered: nat, repeated: nat)

  /** One request is delivered, lost or repeated. Its receiver answers it or drops it as recently
      answered; peers says for each of the receiver's peers whether it is the origin. */
  datatype Action = Deliver(k: nat, ignored: bool, peers: seq<bool>) | Lose(k: nat) | Repeat(k: nat)

  function Outgoing(budget: int, peers: seq<bool>): (out: seq<Msg>)
    requires peers != [] && 0 <= budget < TWO63
    ensures |out| == |peers| && forall i :: 0 <= i < |out| ==> out[i].toOrigin == peers[i]
  {
    SharesNonNegative(budget, |peers|);
    seq(|peers|, i requires 0 <= i < |peers| => Msg(peers[i], AsUint(Shares(budget, |peers|)[i])))
  }

  predicate Enabled(s: State, a: Action) {
    a.k < |s.inFlight| && (a.Deliver? ==> a.peers != [] && s.inFlight[a.k].budget < TWO63)
  }

  function Without(inFlight: seq<Msg>, k: nat): seq<Msg>
    requires k < |inFlight|
  {
    inFlight[..k] + inFlight[k + 1..]
  }

  /** processAddressedSearchRequest and processSearchRequest: only nodes other than the origin spend budget. */
  function Next(s: State, a: Action): State
    requires Enabled(s, a)
  {
    var m := s.inFlight[a.k];
    var rest := Without(s.inFlight, a.k);
    var received := s.delivered + if !m.toOrigin && m.budget > 0 then 1 else 0;
    match a
    case Lose(_) => s.(inFlight := rest)
    case Repeat(_) => s.(inFlight := s.inFlight + [m], repeated := s.repeated + m.budget)
    case Deliver(_, ignored, peers) =>
      if ignored then s.(inFlight := rest, delivered := received)
      else if m.toOrigin then s.(inFlight := rest + Outgoing(AsInt(m.budget), peers))
      else if AsInt(m.budget) - 1 <= 0 then s.(inFlight := rest, delivered := received)
      else s.(inFlight := rest + Outgoing(AsInt(m.budget) - 1, peers), delivered := received)
  }

  /** The total budget on its way. */
  function Total(inFlight: seq<Msg>): nat {
    if inFlight == [] then 0 else Total(inFlight[..|inFlight| - 1]) + inFlight[|inFlight| - 1].budget
  }

  lemma {:induction false} TotalAppend(a: seq<Msg>, b: seq<Msg>)
    ensures Total(a + b) == Total(a) + Total(b)
    decreases |b|
  {
    if b == [] {
      assert a + b == a;
    } else {
      assert (a + b)[..|a + b| - 1] == a + b[..|b| - 1];
      TotalAppend(a, b[..|b| - 1]);
    }
  }

  lemma TotalPrefix(inFlight: seq<Msg>, k: nat)
    requires k < |inFlight|
    ensures Total(inFlight[..k + 1]) == Total(inFlight[..k]) + inFlight[k].budget
  {
    assert inFlight[..k + 1][..k] == inFlight[..k];
  }

  lemma TotalWithout(inFlight: seq<Msg>, k: nat)
    requires k < |inFlight|
    ensures Total(Without(inFlight, k)) == Total(inFlight) - inFlight[k].budget
  {
    var a, c := inFlight[..k], inFlight[k + 1..];
    TotalPrefix(inFlight, k);
    TotalAppend(inFlight[..k + 1], c);
    TotalAppend(a, c);
    assert inFlight == inFlight[..k + 1] + c;
  }

  lemma {:induction false} TotalIsSum(out: seq<Msg>, shares: seq<int>)
    requires |out| == |shares| && forall i :: 0 <= i < |out| ==> out[i].budget == shares[i]
    ensures Total(out) == Sum(shares)
    decreases |out|
  {
    if out != [] {
      TotalIsSum(out[..|out| - 1], shares[..|out| - 1]);
    }
  }

  /** A split sends out exactly the budget it splits, and every peer reads its share off the wire. */
  lemma OutgoingTotal(budget: int, peers: seq<bool>)
    requires peers != [] && 0 <= budget < TWO63
    ensures Total(Outgoing(budget, peers)) == budget
    ensures forall i :: 0 <= i < |peers| ==> AsInt(Outgoing(budget, peers)[i].budget) == Shares(budget, |peers|)[i]
  {
    SharesNonNegative(budget, |peers|);
    TotalIsSum(Outgoing(budget, peers), Shares(budget, |peers|));
    SplitExactIff(budget, |peers|);
    forall i | 0 <= i < |peers| ensures AsInt(Outgoing(budget, peers)[i].budget) == Shares(budget, |peers|)[i] {
      WireRoundTrip(Shares(budget, |peers|)[i], Outgoing(budget, peers)[i].budget);
    }
  }

  /** The budget that the network's copy of a packet adds. */
  function Copied(s: State, a: Action): nat
    requires Enabled(s, a)
  {
    if a.Repeat? then s.inFlight[a.k].budget else 0
  }

  /** The budget lost with a packet, or with one that is dropped as recently answered after its
      delivery has been counted. */
  function Wasted(s: State, a: Action): nat
    requires Enabled(s, a)
  {
    var m := s.inFlight[a.k];
    match a
    case Lose(_) => m.budget
    case Repeat(_) => 0
    case Deliver(_, ignored, _) => if !ignored then 0 else if m.toOrigin || m.budget == 0 then m.budget else m.budget - 1
  }

  lemma SentOn(rest: seq<Msg>, budget: int, peers: seq<bool>)
    requires peers != [] && 0 <= budget < TWO63
    ensures Total(rest + Outgoing(budget, peers)) == Total(rest) + budget
  {
    OutgoingTotal(budget, peers);
    TotalAppend(rest, Outgoing(budget, peers));
  }

  /** The exact account of a step: but for copies and waste, the budget on its way and the deliveries made
      add up to the same before and after. So a delivery that is answered costs exactly one, whoever
      receives it, and the origin's own requests come round to it for nothing. */
  lemma StepAccount(s: State, a: Action)
    requires Enabled(s, a)
    ensures Total(Next(s, a).inFlight) + Next(s, a).delivered + Wasted(s, a) == Total(s.inFlight) + s.delivered + Copied(s, a)
    ensures Next(s, a).repeated == s.repeated + Copied(s, a)
  {
    var m := s.inFlight[a.k];
    var rest := Without(s.inFlight, a.k);
    TotalWithout(s.inFlight, a.k);
    if a.Repeat? {
      TotalAppend(s.inFlight, [m]);
      assert [m][..0] == [];
      assert Total([m]) == m.budget;
    } else if a.Deliver? && !a.ignored {
      if m.toOrigin {
        SentOn(rest, AsInt(m.budget), a.peers);
      } else if AsInt(m.budget) - 1 > 0 {
        SentOn(rest, AsInt(m.budget) - 1, a.peers);
      }
    }
  }

  /** The budget on its way and the deliveries made never grow by more than the network repeats. */
  lemma StepSpends(s: State, a: Action)
    requires Enabled(s, a)
    ensures Total(Next(s, a).inFlight) + Next(s, a).delivered - Next(s, a).repeated <= Total(s.inFlight) + s.delivered - s.repeated
    ensures Total(Next(s, a).inFlight) - Next(s, a).repeated <= Total(s.inFlight) - s.repeated
    ensures a.Repeat? || (a.Deliver? && !a.ignored) ==>
              Total(Next(s, a).inFlight) + Next(s, a).delivered - Next(s, a).repeated == Total(s.inFlight) + s.delivered - s.repeated
  {
    StepAccount(s, a);
    TotalWithout(s.inFlight, a.k);
  }

  ghost predicate IsRun(budget: int, peers: seq<bool>, states: seq<State>, actions: seq<Action>)
    requires peers != [] && 0 <= budget < TWO63
  {
    && |states| == |actions| + 1
    && states[0] == State(Outgoing(budget, peers), 0, 0)
    && forall i :: 0 <= i < |actions| ==> Enabled(states[i], actions[i]) && states[i + 1] == Next(states[i], actions[i])
  }

  /** What the first n steps of a run have wasted. */
  function WastedIn(states: seq<State>, actions: seq<Action>, n: nat): nat
    requires |states| == |actions| + 1 && n <= |actions|
    requires forall i :: 0 <= i < |actions| ==> Enabled(states[i], actions[i])
  {
    if n == 0 then 0 else WastedIn(states, actions, n - 1) + Wasted(states[n - 1], actions[n - 1])
  }

  /** The exact account of a run: the budget and its copies are on their way, have been spent on
      deliveries, or have been lost or ignored; nothing else happens to them. */
  lemma {:induction false} RunAccount(budget: int, peers: seq<bool>, states: seq<State>, actions: seq<Action>, i: nat)
    requires peers != [] && 0 <= budget < TWO63 && IsRun(budget, peers, states, actions) && i < |states|
    ensures Total(states[i].inFlight) + states[i].delivered + WastedIn(states, actions, i) == budget + states[i].repeated
  {
    if i == 0 {
      OutgoingTotal(budget, peers);
    } else {
      RunAccount(budget, peers, states, actions, i - 1);
      StepAccount(states[i - 1], actions[i - 1]);
    }
  }

  /** Splitting gives nobody more than was split, so no request carries more than the search started with. */
  ghost predicate Capped(inFlight: seq<Msg>, budget: int) {
    forall k :: 0 <= k < |inFlight| ==> inFlight[k].budget <= budget
  }

  lemma OutgoingCapped(budget: int, peers: seq<bool>, cap: int)
    requires peers != [] && 0 <= budget < TWO63 && budget <= cap
    ensures Capped(Outgoing(budget, peers), cap)
  {
    SharesNonNegative(budget, |peers|);
    forall i | 0 <= i < |peers| ensures Outgoing(budget, peers)[i].budget <= cap {
      ShareBounds(budget, |peers|, i);
    }
  }

  lemma StepCapped(s: State, a: Action, cap: int)
    requires Enabled(s, a) && Capped(s.inFlight, cap)
    ensures Capped(Next(s, a).inFlight, cap)
    ensures Next(s, a).repeated <= s.repeated + if a.Repeat? then cap else 0
  {
    var m := s.inFlight[a.k];
    if a.Deliver? && !a.ignored {
      if m.toOrigin {
        OutgoingCapped(AsInt(m.budget), a.peers, cap);
      } else if AsInt(m.budget) - 1 > 0 {
        OutgoingCapped(AsInt(m.budget) - 1, a.peers, cap);
      }
    }
  }

  /** How many of the first actions of a run are repetitions. */
  function Repeats(actions: seq<Action>): nat {
    if actions == [] then 0
    else Repeats(actions[..|actions| - 1]) + if actions[|actions| - 1].Repeat? then 1 else 0
  }

  lemma OneMore(budget: int, n: int)
    ensures budget * (1 + n) == budget + budget * n
  {
  }

  lemma {:induction false} RunCapped(budget: int, peers: seq<bool>, states: seq<State>, actions: seq<Action>, i: nat)
    requires peers != [] && 0 <= budget < TWO63 && IsRun(budget, peers, states, actions) && i < |states|
    ensures Capped(states[i].inFlight, budget)
    ensures states[i].repeated <= budget * Repeats(actions[..i])
  {
    if i == 0 {
      OutgoingCapped(budget, peers, budget);
    } else {
      RunCapped(budget, peers, states, actions, i - 1);
      StepCapped(states[i - 1], actions[i - 1], budget);
      assert actions[..i][..i - 1] == actions[..i - 1];
      OneMore(budget, Repeats(actions[..i - 1]));
    }
  }

  /** A search started with budget B, of whose requests the network repeats r, is delivered with a positive
      budget at most B * (1 + r) times in the whole network, in every run, and no request ever carries
      more than B. What exceeds B deliveries is paid for by the budget in the copies. */
  lemma SearchBounded(budget: int, peers: seq<bool>, states: seq<State>, actions: seq<Action>, i: nat)
    requires peers != [] && 0 <= budget < TWO63 && IsRun(budget, peers, states, actions) && i < |states|
    ensures states[i].delivered <= budget + states[i].repeated
    ensures states[i].delivered <= budget * (1 + Repeats(actions[..i]))
    ensures Capped(states[i].inFlight, budget)
  {
    RunAccount(budget, peers, states, actions, i);
    RunCapped(budget, peers, states, actions, i);
    OneMore(budget, Repeats(actions[..i]));
  }

  /** A request on its way can always be delivered, whoever the receiver's peers are, lost or repeated. */
  lemma AlwaysDeliverable(
    budget: int, peers: seq<bool>, states: seq<State>, actions: seq<Action>, i: nat, k: nat, ignored: bool, others: seq<bool>)
    requires peers != [] && 0 <= budget < TWO63 && IsRun(budget, peers, states, actions) && i < |states|
    requires k < |states[i].inFlight| && others != []
    ensures Enabled(states[i], Deliver(k, ignored, others)) && Enabled(states[i], Lose(k)) && Enabled(states[i], Repeat(k))
  {
    RunCapped(budget, peers, states, actions, i);
  }

  ghost predicate IsPath(states: seq<State>, actions: seq<Action>) {
    && |states| == |actions| + 1
    && forall i :: 0 <= i < |actions| ==> Enabled(states[i], actions[i]) && states[i + 1] == Next(states[i], actions[i])
  }

  /** From node to node down a chain, each with one peer, the budget is spent one by one. */
  lemma {:induction false} DownTheChain(budget: nat, delivered: nat) returns (states: seq<State>, actions: seq<Action>)
    requires budget < TWO63
    ensures IsPath(states, actions)
    ensures states[0] == State([Msg(false, budget)], delivered, 0) && states[|actions|].delivered == delivered + budget
    ensures forall i :: 0 <= i < |actions| ==> actions[i].Deliver?
    decreases budget
  {
    var s := State([Msg(false, budget)], delivered, 0);
    if budget == 0 {
      return [s], [];
    }
    var a := Deliver(0, false, [false]);
    var t := Next(s, a);
    if budget == 1 {
      return [s, t], [a];
    }
    OnePeer(budget - 1);
    var more, acts := DownTheChain(budget - 1, delivered + 1);
    assert t == more[0];
    states, actions := [s] + more, [a] + acts;
    forall i | 0 <= i < |actions| ensures Enabled(states[i], actions[i]) && states[i + 1] == Next(states[i], actions[i]) {
      if i > 0 {
        assert Enabled(more[i - 1], acts[i - 1]) && more[i - 1 + 1] == Next(more[i - 1], acts[i - 1]);
      }
    }
  }

  lemma OnePeer(budget: int)
    requires 0 <= budget < TWO63
    ensures Outgoing(budget, [false]) == [Msg(false, budget)]
  {
    OutgoingTotal(budget, [false]);
    assert Outgoing(budget, [false])[..0] == [];
  }

  /** The bound is attained: for every budget there is a run without repetitions in which exactly as many
      requests are delivered at nodes other than the origin. */
  lemma BoundAttained(budget: nat)
    requires budget < TWO63
    ensures exists states: seq<State>, actions: seq<Action> ::
              IsRun(budget, [false], states, actions) && Repeats(actions) == 0 && states[|actions|].delivered == budget
  {
    OnePeer(budget);
    var states, actions := DownTheChain(budget, 0);
    NoRepeats(actions);
    assert IsRun(budget, [false], states, actions);
  }

  lemma {:induction false} NoRepeats(actions: seq<Action>)
    requires forall i :: 0 <= i < |actions| ==> actions[i].Deliver?
    ensures Repeats(actions) == 0
    decreases |actions|
  {
    if actions != [] {
      NoRepeats(actions[..|actions| - 1]);
    }
  }
}
