/**
  One round of event dispatch: registrations and poll results are walked in step while callbacks append to the list.
 */
module PollArray {

  type Id = nat

  datatype EventType = IN | OUT | ERROR | HANGUP

  /** The order of the table from poll bits to events: POLLIN, POLLOUT, POLLERR, POLLHUP. */
  const ORDER: seq<EventType> := [IN, OUT, ERROR, HANGUP]

  datatype Fd = Fd(valid: bool, callbacks: set<EventType>)

  /** The list of registrations, the descriptors that somebody still owns, and whatever else callbacks remember. */
  datatype World = World(registrations: seq<Id>, alive: map<Id, Fd>, memory: string)

  /** What a callback does to the world: it may append registrations, close descriptors, and drop or create them. */
  type Reaction = (World, Id, EventType) -> World

  /** Callbacks only ever append to the list of registrations. */
  ghost predicate Appends(react: Reaction) {
    forall w: World, id: Id, e: EventType :: w.registrations <= react(w, id, e).registrations
  }

  /** cleanup: registrations whose descriptor is gone or closed are removed. */
  function Cleaned(w: World, ids: seq<Id>): seq<Id> {
    if ids == [] then []
    else if ids[0] in w.alive && w.alive[ids[0]].valid then [ids[0]] + Cleaned(w, ids[1..])
    else Cleaned(w, ids[1..])
  }

  function Cleanup(w: World): World {
    w.(registrations := Cleaned(w, w.registrations))
  }

  predicate Kept(w: World, id: Id) {
    id in w.alive && w.alive[id].valid
  }

  lemma {:induction false} CleanedSnoc(w: World, ids: seq<Id>, id: Id)
    ensures Cleaned(w, ids + [id]) == Cleaned(w, ids) + (if Kept(w, id) then [id] else [])
    decreases |ids|
  {
    if ids == [] {
      assert [id][1..] == [];
    } else {
      assert (ids + [id])[1..] == ids[1..] + [id];
      CleanedSnoc(w, ids[1..], id);
    }
  }

  lemma {:induction false} CleanedKeepsTheLiving(w: World, ids: seq<Id>, id: Id)
    ensures multiset(Cleaned(w, ids))[id] == if id in w.alive && w.alive[id].valid then multiset(ids)[id] else 0
    decreases |ids|
  {
    if ids != [] {
      assert ids == [ids[0]] + ids[1..];
      CleanedKeepsTheLiving(w, ids[1..], id);
    }
  }

  /** The descriptor is still there and handles the event. */
  predicate Live(w: World, id: Id, e: EventType) {
    id in w.alive && e in w.alive[id].callbacks
  }

  /** One look at one result bit: slot number and event. */
  datatype Turn = Turn(slot: nat, event: EventType)

  datatype Delivery = Delivery(turn: Turn, id: Id)

  datatype Played = Played(world: World, log: seq<Delivery>)

  type Results = seq<set<EventType>>

  predicate Due(w: World, results: Results, t: Turn) {
    && t.slot < |w.registrations| && t.slot < |results| && t.event in results[t.slot]
    && Live(w, w.registrations[t.slot], t.event)
  }

  /** The walk: each turn looks at the registration that stands in its slot at that moment. */
  function Play(w: World, results: Results, turns: seq<Turn>, react: Reaction): Played
    decreases |turns|
  {
    if turns == [] then Played(w, [])
    else if Due(w, results, turns[0]) then
      var id := w.registrations[turns[0].slot];
      var more := Play(react(w, id, turns[0].event), results, turns[1..], react);
      more.(log := [Delivery(turns[0], id)] + more.log)
    else Play(w, results, turns[1..], react)
  }

  function SlotTurns(slot: nat): seq<Turn> {
    [Turn(slot, IN), Turn(slot, OUT), Turn(slot, ERROR), Turn(slot, HANGUP)]
  }

  /** All turns over `n` results. */
  function Turns(n: nat): seq<Turn> {
    if n == 0 then [] else Turns(n - 1) + SlotTurns(n - 1)
  }

  predicate Before(a: Turn, b: Turn) {
    a.slot < b.slot || (a.slot == b.slot && Rank(a.event) < Rank(b.event))
  }

  function Rank(e: EventType): nat {
    match e case IN => 0 case OUT => 1 case ERROR => 2 case HANGUP => 3
  }

  predicate InOrder(turns: seq<Turn>) {
    forall i, j :: 0 <= i < j < |turns| ==> Before(turns[i], turns[j])
  }

  lemma SlotTurnsInOrder(slot: nat)
    ensures InOrder(SlotTurns(slot)) && Cover(SlotTurns(slot), slot, slot + 1)
  {
    forall t: Turn ensures t in SlotTurns(slot) <==> t.slot == slot {
      match t.event case IN => case OUT => case ERROR => case HANGUP =>
    }
  }

  ghost predicate Cover(turns: seq<Turn>, from: nat, to: nat) {
    forall t: Turn :: t in turns <==> from <= t.slot < to
  }

  lemma CoverTogether(a: seq<Turn>, b: seq<Turn>, n: nat)
    requires Cover(a, 0, n) && Cover(b, n, n + 1)
    ensures Cover(a + b, 0, n + 1)
  {
  }

  lemma NextSlot(a: seq<Turn>, n: nat)
    requires InOrder(a) && Cover(a, 0, n)
    ensures InOrder(a + SlotTurns(n)) && Cover(a + SlotTurns(n), 0, n + 1)
  {
    SlotTurnsInOrder(n);
    hide SlotTurns, InOrder, Cover;
    CoverTogether(a, SlotTurns(n), n);
    OrderedTogether(a, SlotTurns(n), n);
  }

  lemma TurnsStep(n: nat)
    ensures Turns(n + 1) == Turns(n) + SlotTurns(n) && Turns(0) == []
  {
    hide SlotTurns;
  }

  lemma NoTurns()
    ensures InOrder([]) && Cover([], 0, 0)
  {
  }

  /** The walk visits all turns, each slot after the ones before it. */
  lemma {:induction false} TurnsInOrder(n: nat)
    ensures InOrder(Turns(n)) && Cover(Turns(n), 0, n)
    decreases n
  {
    hide Turns, SlotTurns, InOrder, Cover;
    if n == 0 {
      TurnsStep(0);
      NoTurns();
    } else {
      TurnsStep(n - 1);
      TurnsInOrder(n - 1);
      NextSlot(Turns(n - 1), n - 1);
    }
  }

  lemma OrderedTogether(a: seq<Turn>, b: seq<Turn>, n: nat)
    requires InOrder(a) && InOrder(b) && Cover(a, 0, n) && Cover(b, n, n + 1)
    ensures InOrder(a + b)
  {
    forall i, j | 0 <= i < j < |a + b| ensures Before((a + b)[i], (a + b)[j]) {
      if j < |a| {
        assert (a + b)[i] == a[i] && (a + b)[j] == a[j];
      } else if i >= |a| {
        assert (a + b)[i] == b[i - |a|] && (a + b)[j] == b[j - |a|];
      } else {
        assert a[i] in a && b[j - |a|] in b;
      }
    }
  }

  // ---------- properties of a walk ----------

  /** Every delivery goes to the registration its result was built from, although the list grows under the walk. */
  lemma {:induction false} Aligned(w: World, results: Results, turns: seq<Turn>, react: Reaction, snapshot: seq<Id>)
    requires Appends(react) && snapshot <= w.registrations && |results| == |snapshot|
    ensures snapshot <= Play(w, results, turns, react).world.registrations
    ensures forall d :: d in Play(w, results, turns, react).log ==>
              d.turn.slot < |snapshot| && d.id == snapshot[d.turn.slot] && d.turn.event in results[d.turn.slot]
    decreases |turns|
  {
    if turns != [] {
      if Due(w, results, turns[0]) {
        var id := w.registrations[turns[0].slot];
        Aligned(react(w, id, turns[0].event), results, turns[1..], react, snapshot);
      } else {
        Aligned(w, results, turns[1..], react, snapshot);
      }
    }
  }

  function TurnsOf(log: seq<Delivery>): seq<Turn> {
    if log == [] then [] else [log[0].turn] + TurnsOf(log[1..])
  }

  /** Deliveries are turns of the walk, in its order: none is delivered twice. */
  lemma {:induction false} DeliveredInOrder(w: World, results: Results, turns: seq<Turn>, react: Reaction)
    requires InOrder(turns)
    ensures InOrder(TurnsOf(Play(w, results, turns, react).log))
    ensures forall t :: t in TurnsOf(Play(w, results, turns, react).log) ==> t in turns
    decreases |turns|
  {
    if turns != [] {
      var rest := turns[1..];
      assert InOrder(rest) by { assert forall i :: 0 <= i < |rest| ==> rest[i] == turns[i + 1]; }
      if Due(w, results, turns[0]) {
        var id := w.registrations[turns[0].slot];
        var w' := react(w, id, turns[0].event);
        DeliveredInOrder(w', results, rest, react);
        FirstBeforeRest(turns, TurnsOf(Play(w', results, rest, react).log));
        var log := Play(w', results, rest, react).log;
        assert ([Delivery(turns[0], id)] + log)[1..] == log;
      } else {
        DeliveredInOrder(w, results, rest, react);
      }
    }
  }

  lemma FirstBeforeRest(turns: seq<Turn>, some: seq<Turn>)
    requires turns != [] && InOrder(turns) && InOrder(some) && forall t :: t in some ==> t in turns[1..]
    ensures InOrder([turns[0]] + some)
  {
    var all := [turns[0]] + some;
    forall i, j | 0 <= i < j < |all| ensures Before(all[i], all[j]) {
      if i == 0 {
        assert all[j] in some;
        var k :| 0 <= k < |turns[1..]| && turns[1..][k] == all[j];
        assert turns[k + 1] == all[j];
      }
    }
  }

  /**
    Delivered is what was reported and, at its turn, finds its descriptor there with a handler; whatever callbacks do.
   */
  lemma DeliveredIffDue(w: World, results: Results, turns: seq<Turn>, react: Reaction, k: nat)
    requires InOrder(turns) && k < |turns|
    ensures var now, t := Play(w, results, turns[..k], react).world, turns[k];
            t in TurnsOf(Play(w, results, turns, react).log) <==>
              && t.slot < |now.registrations| && t.slot < |results| && t.event in results[t.slot]
              && var id := now.registrations[t.slot]; id in now.alive && t.event in now.alive[id].callbacks
  {
    assert Due(Play(w, results, turns[..k], react).world, results, turns[k]) <==>
        var now, t := Play(w, results, turns[..k], react).world, turns[k];
        && t.slot < |now.registrations| && t.slot < |results| && t.event in results[t.slot]
        && var id := now.registrations[t.slot]; id in now.alive && t.event in now.alive[id].callbacks;
    var t, before, after := turns[k], turns[..k], turns[k + 1..];
    assert turns == before + ([t] + after) && ([t] + after)[1..] == after;
    hide Play, Due, InOrder;
    PlayInParts(w, results, before, [t] + after, react);
    var first := Play(w, results, before, react);
    TurnsOfTwo(first.log, Play(first.world, results, [t] + after, react).log);
    OnlyTurns(w, results, before, react);
    OnlyOnce(turns, k);
    TurnIsDue(first.world, results, t, after, react);
  }

  lemma TurnIsDue(w: World, results: Results, t: Turn, after: seq<Turn>, react: Reaction)
    requires t !in after
    ensures t in TurnsOf(Play(w, results, [t] + after, react).log) <==> Due(w, results, t)
  {
    assert ([t] + after)[1..] == after;
    if Due(w, results, t) {
      var id := w.registrations[t.slot];
      var log := Play(react(w, id, t.event), results, after, react).log;
      assert ([Delivery(t, id)] + log)[1..] == log;
    } else {
      OnlyTurns(w, results, after, react);
    }
  }

  lemma OnlyOnce(turns: seq<Turn>, k: nat)
    requires InOrder(turns) && k < |turns|
    ensures turns[k] !in turns[..k] && turns[k] !in turns[k + 1..]
  {
    forall i | 0 <= i < |turns| && i != k ensures turns[i] != turns[k] {
      assert if i < k then Before(turns[i], turns[k]) else Before(turns[k], turns[i]);
    }
  }

  lemma {:induction false} TurnsOfTwo(a: seq<Delivery>, b: seq<Delivery>)
    ensures TurnsOf(a + b) == TurnsOf(a) + TurnsOf(b)
    decreases |a|
  {
    if a == [] {
      assert a + b == b;
    } else {
      assert (a + b)[1..] == a[1..] + b;
      TurnsOfTwo(a[1..], b);
    }
  }

  lemma {:induction false} OnlyTurns(w: World, results: Results, turns: seq<Turn>, react: Reaction)
    ensures forall t :: t in TurnsOf(Play(w, results, turns, react).log) ==> t in turns
    decreases |turns|
  {
    if turns != [] {
      if Due(w, results, turns[0]) {
        var id := w.registrations[turns[0].slot];
        var w' := react(w, id, turns[0].event);
        var log := Play(w', results, turns[1..], react).log;
        assert ([Delivery(turns[0], id)] + log)[1..] == log;
        OnlyTurns(w', results, turns[1..], react);
      } else {
        OnlyTurns(w, results, turns[1..], react);
      }
    }
  }

  /**
    While callbacks only append, the slot of a result keeps its registration, so only the handler is left to ask for.
   */
  lemma DeliveredIfLive(w: World, results: Results, turns: seq<Turn>, react: Reaction, k: nat)
    requires Appends(react) && |results| == |w.registrations|
    requires InOrder(turns) && k < |turns| && turns[k].slot < |results|
    ensures var now, t := Play(w, results, turns[..k], react).world, turns[k];
            var id := w.registrations[t.slot];
            t in TurnsOf(Play(w, results, turns, react).log) <==>
              t.event in results[t.slot] && id in now.alive && t.event in now.alive[id].callbacks
  {
    DeliveredIffDue(w, results, turns, react, k);
    Aligned(w, results, turns[..k], react, w.registrations);
    hide Play, TurnsOf, InOrder;
  }

  /** The world a log leaves: that of its callbacks, called one after the other. */
  function Replayed(w: World, log: seq<Delivery>, react: Reaction): World
    decreases |log|
  {
    if log == [] then w else Replayed(react(w, log[0].id, log[0].turn.event), log[1..], react)
  }

  /** Every delivery calls its callback, and nothing else changes the world. */
  lemma {:induction false} WorldFollowsLog(w: World, results: Results, turns: seq<Turn>, react: Reaction)
    ensures Play(w, results, turns, react).world == Replayed(w, Play(w, results, turns, react).log, react)
    decreases |turns|
  {
    if turns != [] {
      if Due(w, results, turns[0]) {
        var id := w.registrations[turns[0].slot];
        var w' := react(w, id, turns[0].event);
        WorldFollowsLog(w', results, turns[1..], react);
        var log := Play(w', results, turns[1..], react).log;
        assert ([Delivery(turns[0], id)] + log)[1..] == log;
      } else {
        WorldFollowsLog(w, results, turns[1..], react);
      }
    }
  }

  // ---------- the round ----------

  /**
    One round over the cleaned list: deliveries are aligned with the results, in order, at most once, only to
    registrations that were there when the round began, and exactly the reported events whose handler is still there
    when their turn comes.
   */
  lemma RoundIsExact(w: World, results: Results, react: Reaction)
    requires Appends(react) && |results| == |Cleanup(w).registrations|
    ensures var start, turns := Cleanup(w), Turns(|results|);
            var played := Play(start, results, turns, react);
            && start.registrations <= played.world.registrations
            && (forall d :: d in played.log ==>
                  d.turn.slot < |results| && d.id == start.registrations[d.turn.slot] &&
                    d.turn.event in results[d.turn.slot])
            && InOrder(TurnsOf(played.log))
            && (forall t: Turn :: t in turns <==> t.slot < |results|)
            && played.world == Replayed(start, played.log, react)
            && (forall k :: 0 <= k < |turns| && turns[k].slot < |results| ==>
                  var now, t := Play(start, results, turns[..k], react).world, turns[k];
                  var id := start.registrations[t.slot];
                  (t in TurnsOf(played.log) <==>
                   t.event in results[t.slot] && id in now.alive && t.event in now.alive[id].callbacks))
  {
    var start, turns := Cleanup(w), Turns(|results|);
    TurnsInOrder(|results|);
    assert Cover(turns, 0, |results|);
    Aligned(start, results, turns, react, start.registrations);
    DeliveredInOrder(start, results, turns, react);
    WorldFollowsLog(start, results, turns, react);
    hide Play, TurnsOf, Turns, InOrder, Cleanup;
    forall k | 0 <= k < |turns| && turns[k].slot < |results|
      ensures var now, t := Play(start, results, turns[..k], react).world, turns[k];
              var id := start.registrations[t.slot];
              t in TurnsOf(Play(start, results, turns, react).log) <==>
                t.event in results[t.slot] && id in now.alive && t.event in now.alive[id].callbacks
    {
      DeliveredIfLive(start, results, turns, react, k);
    }
  }

  lemma {:induction false} PlayInParts(w: World, results: Results, a: seq<Turn>, b: seq<Turn>, react: Reaction)
    ensures var first := Play(w, results, a, react);
            var second := Play(first.world, results, b, react);
            Play(w, results, a + b, react) == Played(second.world, first.log + second.log)
    decreases |a|
  {
    if a == [] {
      assert a + b == b;
      var second := Play(w, results, b, react);
      assert [] + second.log == second.log;
    } else {
      assert (a + b)[1..] == a[1..] + b && (a + b)[0] == a[0];
      if Due(w, results, a[0]) {
        var id := w.registrations[a[0].slot];
        var w' := react(w, id, a[0].event);
        PlayInParts(w', results, a[1..], b, react);
        var first := Play(w', results, a[1..], react);
        var second := Play(first.world, results, b, react);
        assert [Delivery(a[0], id)] + (first.log + second.log) == ([Delivery(a[0], id)] + first.log) + second.log;
      } else {
        PlayInParts(w, results, a[1..], b, react);
      }
    }
  }

  class AsyncPollArray {
    var world: World
    ghost var log: seq<Delivery>

    constructor (alive: map<Id, Fd>, memory: string)
      ensures world == World([], alive, memory) && log == []
    {
      world := World([], alive, memory);
      log := [];
    }

    /** The registration goes to the end of the list. */
    method Add(id: Id)
      modifies this`world
      ensures world == old(world).(registrations := old(world).registrations + [id])
    {
      world := world.(registrations := world.registrations + [id]);
    }

    /** Registrations whose descriptor is gone or closed are taken out of the list; the others keep their order. */
    method DoCleanup()
      modifies this`world
      ensures world == Cleanup(old(world))
      ensures forall id :: multiset(world.registrations)[id] ==
                           if id in old(world).alive && old(world).alive[id].valid
                             then multiset(old(world).registrations)[id] else 0
    {
      var kept: seq<Id> := [];
      var ids := world.registrations;
      for i := 0 to |ids|
        invariant world == old(world) && kept == Cleaned(world, ids[..i])
      {
        CleanedSnoc(world, ids[..i], ids[i]);
        assert ids[..i + 1] == ids[..i] + [ids[i]];
        if ids[i] in world.alive && world.alive[ids[i]].valid {
          kept := kept + [ids[i]];
        }
      }
      assert ids[..|ids|] == ids;
      forall id
        ensures multiset(Cleaned(world, ids))[id] ==
                if id in world.alive && world.alive[id].valid then multiset(ids)[id] else 0
      {
        CleanedKeepsTheLiving(world, ids, id);
      }
      world := world.(registrations := kept);
    }

    /** `results` is what the system call reports for the cleaned list. */
    method Poll(results: Results, react: Reaction)
      requires Appends(react) && |results| == |Cleanup(world).registrations|
      modifies this
      ensures var played := Play(Cleanup(old(world)), results, Turns(|results|), react);
              world == played.world && log == old(log) + played.log
    {
      DoCleanup();
      ghost var start := world;
      var slot: nat := 0;
      PlayNothing(start, results, react);
      assert log == old(log) + [];
      hide Play, SlotTurns, Cleanup;
      while slot < |world.registrations| && slot < |results|
        invariant slot <= |results| && start.registrations <= world.registrations
        invariant world == Play(start, results, Turns(slot), react).world
        invariant log == old(log) + Play(start, results, Turns(slot), react).log
        decreases |results| - slot
      {
        PlayInParts(start, results, Turns(slot), SlotTurns(slot), react);
        Aligned(start, results, Turns(slot + 1), react, start.registrations);
        DispatchSlot(slot, results, react);
        slot := slot + 1;
      }
    }

    /** The inner loop: the bits of one result, in the order of the table. */
    method DispatchSlot(slot: nat, results: Results, react: Reaction)
      requires slot < |results|
      modifies this
      ensures var played := Play(old(world), results, SlotTurns(slot), react);
              world == played.world && log == old(log) + played.log
    {
      ghost var turns := [];
      PlayNothing(world, results, react);
      assert log == old(log) + [];
      hide Play;
      for i := 0 to |ORDER|
        invariant turns == SlotTurns(slot)[..i]
        invariant world == Play(old(world), results, turns, react).world
        invariant log == old(log) + Play(old(world), results, turns, react).log
      {
        var event := ORDER[i];
        var t := Turn(slot, event);
        assert SlotTurns(slot)[i] == t;
        PlayInParts(old(world), results, turns, [t], react);
        PlayOne(world, results, t, react);
        if event in results[slot] {
          if slot < |world.registrations| {
            var id := world.registrations[slot];
            if id in world.alive && event in world.alive[id].callbacks {
              log := log + [Delivery(t, id)];
              world := react(world, id, event);
            }
          }
        }
        turns := turns + [t];
      }
      assert SlotTurns(slot)[..|ORDER|] == SlotTurns(slot);
    }
  }

  lemma PlayNothing(w: World, results: Results, react: Reaction)
    ensures Play(w, results, [], react) == Played(w, [])
  {
  }

  lemma PlayOne(w: World, results: Results, t: Turn, react: Reaction)
    ensures Play(w, results, [t], react) ==
            if Due(w, results, t) then
              Played(react(w, w.registrations[t.slot], t.event), [Delivery(t, w.registrations[t.slot])])
            else Played(w, [])
  {
    assert [t][1..] == [];
  }
}
