// MessageStorage.go: one append-only log of rumors per origin and a clock counting each log.

module MessageStorages {
  import opened Wrappers

  const MAX32 := 0xFFFF_FFFF

  type uint32 = x: int | 0 <= x <= MAX32

  /** x - 1 and x + 1 as uint32 computes them. */
  function Pred32(x: uint32): uint32 {
    if x == 0 then MAX32 else x - 1
  }

  function Succ32(x: uint32): uint32 {
    if x == MAX32 then 0 else x + 1
  }

  datatype Rumor = Rumor(origin: string, id: uint32, text: string)

  datatype PeerStatus = PeerStatus(identifier: string, nextId: uint32)

  /** The rumors held, by origin. */
  type Logs = map<string, seq<Rumor>>

  function LogOf(logs: Logs, origin: string): seq<Rumor> {
    if origin in logs then logs[origin] else []
  }

  ghost predicate LogOk(origin: string, log: seq<Rumor>) {
    && |log| <= MAX32
    && forall i :: 0 <= i < |log| ==> log[i].origin == origin && log[i].id == i + 1
  }

  /** Every log holds the rumors 1, 2, 3, ... of its origin without gaps. */
  ghost predicate LogsOk(logs: Logs) {
    forall o :: o in logs ==> logs[o] != [] && LogOk(o, logs[o])
  }

  // ---------- adding a rumor ----------

  /** The rumor is the next one of its origin. */
  predicate IsNext(logs: Logs, r: Rumor) {
    Pred32(r.id) == |LogOf(logs, r.origin)|
  }

  function Added(logs: Logs, r: Rumor): Logs {
    if IsNext(logs, r) then logs[r.origin := LogOf(logs, r.origin) + [r]] else logs
  }

  /** The one rumor that makes the clock wrap round. */
  predicate Wraps(logs: Logs, r: Rumor) {
    r.id == 0 && |LogOf(logs, r.origin)| == MAX32
  }

  lemma AddedOk(logs: Logs, r: Rumor)
    requires LogsOk(logs)
    ensures LogsOk(Added(logs, r)) <==> !Wraps(logs, r)
  {
    if IsNext(logs, r) {
      var log := LogOf(logs, r.origin) + [r];
      assert log[|log| - 1] == r;
      assert Added(logs, r)[r.origin] == log;
    }
  }

  // ---------- statuses ----------

  /** The status lists every origin once, with the number of the next rumor wanted. */
  ghost predicate IsStatus(want: seq<PeerStatus>, logs: Logs) {
    && (forall i, j :: 0 <= i < j < |want| ==> want[i].identifier != want[j].identifier)
    && (forall o :: o in logs <==> Lists(want, o))
    && forall i :: 0 <= i < |want| ==>
         |LogOf(logs, want[i].identifier)| <= MAX32 && want[i].nextId == Succ32(|LogOf(logs, want[i].identifier)|)
  }

  ghost predicate Lists(want: seq<PeerStatus>, o: string) {
    exists i :: 0 <= i < |want| && want[i].identifier == o
  }

  // ---------- Diff ----------

  /** The rumor is held, and a peer that sent this status lacks it and wants it next: its number is
      the one of an entry, or 1 for an origin the status does not list. */
  ghost predicate ToSend(logs: Logs, want: seq<PeerStatus>, r: Rumor) {
    || (exists i :: 0 <= i < |want| && SendsFor(logs, want[i].identifier, Pred32(want[i].nextId), r))
    || (exists o :: !Lists(want, o) && SendsFor(logs, o, 0, r))
  }

  ghost predicate SendsFor(logs: Logs, o: string, k: int, r: Rumor) {
    0 <= k < |LogOf(logs, o)| && r == LogOf(logs, o)[k]
  }

  ghost predicate NothingToSend(logs: Logs, want: seq<PeerStatus>) {
    && NothingToSendIn(logs, want)
    && (forall o :: !Lists(want, o) ==> |LogOf(logs, o)| == 0)
  }

  ghost predicate OtherAhead(logs: Logs, want: seq<PeerStatus>) {
    exists i :: 0 <= i < |want| && |LogOf(logs, want[i].identifier)| < Pred32(want[i].nextId)
  }

  /** What Diff promises; the flag means nothing when there is a rumor. */
  ghost predicate DiffOk(logs: Logs, want: seq<PeerStatus>, rumor: Option<Rumor>, otherAhead: bool) {
    match rumor
    case Some(r) => ToSend(logs, want, r)
    case None => NothingToSend(logs, want) && (otherAhead <==> OtherAhead(logs, want))
  }

  // ---------- the clock and the slices as values ----------

  type Clocks = map<string, uint32>

  /** Go's look-up of a missing key: zero. */
  function ClockOf(vc: Clocks, name: string): uint32 {
    if name in vc then vc[name] else 0
  }

  /** The rumors held. An origin whose only rumors were refused has an empty slice and no clock. */
  ghost function StoredIn(vc: Clocks, rm: map<string, seq<Rumor>>): Logs {
    map o | o in vc && o in rm :: rm[o]
  }

  /** The clock counts each log, the logs have no gaps. */
  ghost predicate ClockOk(vc: Clocks, rm: map<string, seq<Rumor>>) {
    && (forall o :: o in vc ==> o in rm && vc[o] == |rm[o]|)
    && (forall o :: o in rm && o !in vc ==> rm[o] == [])
    && LogsOk(StoredIn(vc, rm))
  }

  lemma ClockCounts(vc: Clocks, rm: map<string, seq<Rumor>>, name: string)
    requires ClockOk(vc, rm)
    ensures ClockOf(vc, name) == |LogOf(StoredIn(vc, rm), name)|
    ensures name in rm ==> rm[name] == LogOf(StoredIn(vc, rm), name)
    ensures name in vc <==> name in StoredIn(vc, rm)
  {
  }

  lemma EmptySlice(vc: Clocks, rm: map<string, seq<Rumor>>, name: string)
    requires ClockOk(vc, rm) && name !in rm
    ensures ClockOk(vc, rm[name := []]) && StoredIn(vc, rm[name := []]) == StoredIn(vc, rm)
  {
    assert StoredIn(vc, rm[name := []]) == StoredIn(vc, rm);
  }

  /** Appending the next rumor and counting it keeps the invariant unless the count wraps round. */
  lemma CountedAppend(vc: Clocks, rm: map<string, seq<Rumor>>, r: Rumor)
    requires ClockOk(vc, rm) && r.origin in rm && Pred32(r.id) == ClockOf(vc, r.origin)
    ensures var vc' := vc[r.origin := Succ32(ClockOf(vc, r.origin))];
            var rm' := rm[r.origin := rm[r.origin] + [r]];
            && (ClockOk(vc', rm') <==> !Wraps(StoredIn(vc, rm), r))
            && StoredIn(vc', rm') == Added(StoredIn(vc, rm), r)
  {
    var logs := StoredIn(vc, rm);
    ClockCounts(vc, rm, r.origin);
    AddedOk(logs, r);
    var vc' := vc[r.origin := Succ32(ClockOf(vc, r.origin))];
    var rm' := rm[r.origin := rm[r.origin] + [r]];
    assert StoredIn(vc', rm') == Added(logs, r);
  }

  // ---------- the two loops of Diff ----------

  /** The first i entries hold nothing we are ahead of; others holds the last entry of each name. */
  ghost predicate Scanned(logs: Logs, want: seq<PeerStatus>, i: nat, others: Clocks, otherAhead: bool)
    requires i <= |want|
  {
    && NothingToSendIn(logs, want[..i])
    && (otherAhead <==> OtherAhead(logs, want[..i]))
    && (forall o :: o in others <==> Lists(want[..i], o))
    && forall o :: o in others ==> EntryOf(want[..i], o, others[o])
  }

  ghost predicate NothingToSendIn(logs: Logs, want: seq<PeerStatus>) {
    forall i :: 0 <= i < |want| ==> |LogOf(logs, want[i].identifier)| <= Pred32(want[i].nextId)
  }

  ghost predicate EntryOf(want: seq<PeerStatus>, o: string, k: uint32) {
    exists i :: 0 <= i < |want| && want[i].identifier == o && Pred32(want[i].nextId) == k
  }

  lemma ListsOneMore(want: seq<PeerStatus>, e: PeerStatus, o: string)
    ensures Lists(want + [e], o) <==> Lists(want, o) || o == e.identifier
  {
    var more := want + [e];
    assert more[|want|] == e;
    if Lists(want, o) {
      var j :| 0 <= j < |want| && want[j].identifier == o;
      assert more[j].identifier == o;
    }
  }

  lemma EntryOneMore(want: seq<PeerStatus>, e: PeerStatus, o: string, k: uint32)
    requires EntryOf(want, o, k) || (o == e.identifier && k == Pred32(e.nextId))
    ensures EntryOf(want + [e], o, k)
  {
    var more := want + [e];
    if EntryOf(want, o, k) {
      var j :| 0 <= j < |want| && want[j].identifier == o && Pred32(want[j].nextId) == k;
      assert more[j] == want[j];
    } else {
      assert more[|want|] == e;
    }
  }

  lemma AheadOneMore(logs: Logs, want: seq<PeerStatus>, e: PeerStatus)
    ensures OtherAhead(logs, want + [e]) <==> OtherAhead(logs, want) || |LogOf(logs, e.identifier)| < Pred32(e.nextId)
  {
    var more := want + [e];
    assert more[|want|] == e;
    if OtherAhead(logs, want) {
      var j :| 0 <= j < |want| && |LogOf(logs, want[j].identifier)| < Pred32(want[j].nextId);
      assert more[j] == want[j];
    }
  }

  lemma ScanOne(logs: Logs, want: seq<PeerStatus>, i: nat, others: Clocks, otherAhead: bool)
    requires i < |want| && Scanned(logs, want, i, others, otherAhead)
    requires |LogOf(logs, want[i].identifier)| <= Pred32(want[i].nextId)
    ensures Scanned(logs, want, i + 1, others[want[i].identifier := Pred32(want[i].nextId)],
                    otherAhead || |LogOf(logs, want[i].identifier)| < Pred32(want[i].nextId))
  {
    var a, e := want[..i], want[i];
    var next := others[e.identifier := Pred32(e.nextId)];
    assert want[..i + 1] == a + [e];
    AheadOneMore(logs, a, e);
    forall o ensures o in next <==> Lists(a + [e], o) {
      ListsOneMore(a, e, o);
    }
    forall o | o in next ensures EntryOf(a + [e], o, next[o]) {
      EntryOneMore(a, e, o, next[o]);
    }
  }

  class MessageStorage {
    var vectorClock: map<string, uint32>
    var rumorMessages: map<string, seq<Rumor>>
    var nonEmptyMessagesChronOrder: seq<Rumor>

    constructor ()
      ensures Valid() && Stored() == map[] && nonEmptyMessagesChronOrder == []
    {
      vectorClock := map[];
      rumorMessages := map[];
      nonEmptyMessagesChronOrder := [];
    }

    function Clock(name: string): uint32
      reads this
    {
      ClockOf(vectorClock, name)
    }

    ghost function Stored(): Logs
      reads this
    {
      StoredIn(vectorClock, rumorMessages)
    }

    ghost predicate Valid()
      reads this
    {
      ClockOk(vectorClock, rumorMessages)
    }

    /** The number handed out is the one the storage takes next. */
    method GetNextMessageId(name: string) returns (id: uint32)
      requires Valid()
      ensures forall text :: IsNext(Stored(), Rumor(name, id, text))
    {
      ClockCounts(vectorClock, rumorMessages, name);
      id := Succ32(Clock(name));
    }

    method GetCurrentStatusPacket() returns (want: seq<PeerStatus>)
      requires Valid()
      ensures IsStatus(want, Stored())
    {
      want := [];
      var todo := vectorClock.Keys;
      while todo != {}
        invariant todo <= vectorClock.Keys
        invariant forall i, j :: 0 <= i < j < |want| ==> want[i].identifier != want[j].identifier
        invariant forall o :: o in vectorClock && o !in todo <==> Lists(want, o)
        invariant forall i :: 0 <= i < |want| ==> want[i].nextId == Succ32(Clock(want[i].identifier))
      {
        var name :| name in todo;
        var e := PeerStatus(name, Succ32(vectorClock[name]));
        assert !Lists(want, name);
        forall o ensures Lists(want + [e], o) <==> Lists(want, o) || o == name {
          ListsOneMore(want, e, o);
        }
        want := want + [e];
        todo := todo - {name};
      }
      forall i | 0 <= i < |want|
        ensures want[i].nextId == Succ32(|LogOf(Stored(), want[i].identifier)|)
      {
        ClockCounts(vectorClock, rumorMessages, want[i].identifier);
      }
    }

    method IsNewMessage(rmsg: Rumor) returns (isNew: bool)
      requires Valid()
      ensures isNew <==> IsNext(Stored(), rmsg)
    {
      ClockCounts(vectorClock, rumorMessages, rmsg.origin);
      var rmsgId := Pred32(rmsg.id);
      if rmsgId < Clock(rmsg.origin) {
        return false;
      } else if rmsgId == Clock(rmsg.origin) {
        return true;
      } else {
        return false;
      }
    }

    /** Stores the rumor if it is the next of its origin; old and premature rumors are refused. */
    method AddRumorMessage(rmsg: Rumor) returns (added: bool)
      requires Valid()
      modifies this
      ensures added <==> IsNext(old(Stored()), rmsg)
      ensures Valid() <==> !Wraps(old(Stored()), rmsg)
      ensures Stored() == Added(old(Stored()), rmsg)
      ensures nonEmptyMessagesChronOrder ==
              old(nonEmptyMessagesChronOrder) + if added && rmsg.text != "" then [rmsg] else []
    {
      var origin := rmsg.origin;
      if origin !in rumorMessages {
        EmptySlice(vectorClock, rumorMessages, origin);
        rumorMessages := rumorMessages[origin := []];
      }
      ClockCounts(vectorClock, rumorMessages, origin);
      var rmsgId := Pred32(rmsg.id);
      if rmsgId < Clock(origin) {
        return false;
      } else if rmsgId == Clock(origin) {
        CountedAppend(vectorClock, rumorMessages, rmsg);
        rumorMessages := rumorMessages[origin := rumorMessages[origin] + [rmsg]];
        if rmsg.text != "" {
          nonEmptyMessagesChronOrder := nonEmptyMessagesChronOrder + [rmsg];
        }
        vectorClock := vectorClock[origin := Succ32(Clock(origin))];
      } else {
        return false;
      }
      return true;
    }

    /** Compares the clock with a peer's status, whatever its entries and their order. */
    method Diff(want: seq<PeerStatus>) returns (rumor: Option<Rumor>, otherHasThisDoesnt: bool)
      requires Valid()
      ensures DiffOk(Stored(), want, rumor, otherHasThisDoesnt)
    {
      otherHasThisDoesnt := false;
      var othersMap: Clocks := map[];
      for i := 0 to |want|
        invariant Scanned(Stored(), want, i, othersMap, otherHasThisDoesnt)
      {
        var nextId := Pred32(want[i].nextId);
        var name := want[i].identifier;
        ClockCounts(vectorClock, rumorMessages, name);
        if Clock(name) > nextId {
          assert SendsFor(Stored(), want[i].identifier, Pred32(want[i].nextId), rumorMessages[name][nextId]);
          return Some(rumorMessages[name][nextId]), otherHasThisDoesnt;
        }
        ScanOne(Stored(), want, i, othersMap, otherHasThisDoesnt);
        if Clock(name) < nextId {
          otherHasThisDoesnt := true;
        }
        othersMap := othersMap[name := nextId];
      }
      assert want[..|want|] == want;
      var todo := vectorClock.Keys;
      while todo != {}
        invariant todo <= vectorClock.Keys
        invariant forall o :: o in vectorClock && o !in todo ==> o in othersMap
        invariant Scanned(Stored(), want, |want|, othersMap, otherHasThisDoesnt)
      {
        var name :| name in todo;
        todo := todo - {name};
        var nextId := vectorClock[name];
        var others := ClockOf(othersMap, name);
        ClockCounts(vectorClock, rumorMessages, name);
        if nextId > others {
          assert !Lists(want, name);
          assert SendsFor(Stored(), name, 0, rumorMessages[name][others]);
          return Some(rumorMessages[name][others]), otherHasThisDoesnt;
        } else if nextId < others {
          assert OtherAhead(Stored(), want);
          otherHasThisDoesnt := true;
        }
      }
      forall o | !Lists(want, o) ensures |LogOf(Stored(), o)| == 0 {
        ClockCounts(vectorClock, rumorMessages, o);
      }
      return None, otherHasThisDoesnt;
    }
  }

  // ---------- Diff on the status of another storage ----------

  /** The entry of an origin in a status is the length of its log. */
  lemma StatusEntry(want: seq<PeerStatus>, logs: Logs, o: string)
    requires IsStatus(want, logs) && LogsOk(logs)
    ensures Lists(want, o) ==>
              exists i :: 0 <= i < |want| && want[i].identifier == o && Pred32(want[i].nextId) == |LogOf(logs, o)|
    ensures !Lists(want, o) ==> LogOf(logs, o) == []
  {
    if Lists(want, o) {
      var i :| 0 <= i < |want| && want[i].identifier == o;
      assert Pred32(want[i].nextId) == |LogOf(logs, o)|;
    }
  }

  /** Against an honest status Diff compares clocks, log by log: it returns the very next rumor of a
      log the other lacks a part of; it says the other is ahead when the other is behind nowhere and
      ahead somewhere; and it finds nothing at all exactly when the clocks agree on all origins. */
  lemma DiffOnStatus(logs: Logs, want: seq<PeerStatus>, other: Logs, rumor: Option<Rumor>, otherAhead: bool)
    requires LogsOk(logs) && LogsOk(other) && IsStatus(want, other)
    requires DiffOk(logs, want, rumor, otherAhead)
    ensures rumor != None ==> exists o :: SendsFor(logs, o, |LogOf(other, o)|, rumor.value)
    ensures rumor == None <==> forall o :: |LogOf(logs, o)| <= |LogOf(other, o)|
    ensures rumor == None ==> (otherAhead <==> exists o :: |LogOf(logs, o)| < |LogOf(other, o)|)
    ensures rumor == None && !otherAhead <==> forall o :: |LogOf(logs, o)| == |LogOf(other, o)|
  {
    match rumor
    case Some(r) =>
      if i :| 0 <= i < |want| && SendsFor(logs, want[i].identifier, Pred32(want[i].nextId), r) {
        assert SendsFor(logs, want[i].identifier, |LogOf(other, want[i].identifier)|, r);
      } else {
        var o :| !Lists(want, o) && SendsFor(logs, o, 0, r);
        StatusEntry(want, other, o);
        assert SendsFor(logs, o, |LogOf(other, o)|, r);
      }
    case None =>
      forall o ensures |LogOf(logs, o)| <= |LogOf(other, o)| {
        StatusEntry(want, other, o);
      }
      if o :| |LogOf(logs, o)| < |LogOf(other, o)| {
        StatusEntry(want, other, o);
        assert OtherAhead(logs, want);
      }
      if OtherAhead(logs, want) {
        var i :| 0 <= i < |want| && |LogOf(logs, want[i].identifier)| < Pred32(want[i].nextId);
        assert |LogOf(logs, want[i].identifier)| < |LogOf(other, want[i].identifier)|;
      }
  }
}
