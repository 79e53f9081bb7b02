/**
 * How `FDDC.passive_play` groups the events of a MIDI file by tick, and
 * orders the events of one tick with `getKey`.
 */
module TickGroups {
  // ---------------------------------------------------------------------
  // Grouping the events of a file by tick (passive_play, getKey)

  datatype EventKind = NoteOnEvent | NoteOffEvent | SetTempoEvent | OtherEvent

  /** A MIDI file event, reduced to what the grouping looks at and passes on. */
  datatype MidiEvent = MidiEvent(kind: EventKind, channel: int, note: int)

  /** An event with its absolute tick, as the file reader lists them. */
  datatype TimedEvent = TimedEvent(tick: int, event: MidiEvent)

  /** One tick and its events, as `passive_play` hands them on. */
  datatype TickGroup = TickGroup(tick: int, events: seq<MidiEvent>)

  /** `getKey`: Note Offs first, then Note Ons, then the rest. */
  function GetKey(e: MidiEvent): (r: int)
    ensures 1 <= r <= 3
    ensures r == 1 <==> e.kind == NoteOffEvent
    ensures r == 2 <==> e.kind == NoteOnEvent
  {
    match e.kind
    case NoteOffEvent => 1
    case NoteOnEvent => 2
    case _ => 3
  }

  /** Whether `passive_play` keeps an event (Note On, Note Off or Set Tempo). */
  predicate Kept(e: MidiEvent)
  {
    e.kind != OtherEvent
  }

  /** The events of `s` whose key is `k`, in their original order. */
  function WithKey(s: seq<MidiEvent>, k: int): (r: seq<MidiEvent>)
    ensures forall i :: 0 <= i < |r| ==> GetKey(r[i]) == k
    ensures |r| <= |s|
  {
    if s == [] then []
    else
      var init := WithKey(s[..|s| - 1], k);
      if GetKey(s[|s| - 1]) == k then init + [s[|s| - 1]] else init
  }

  /**
   * `sorted(events, key=getKey)`: a stable sort on a three-valued key, i.e.
   * the key-1 events, then the key-2 events, then the key-3 events, each in
   * their original order.  The result is in ascending order of `getKey`.
   */
  function SortByKey(s: seq<MidiEvent>): (r: seq<MidiEvent>)
    ensures forall i, j :: 0 <= i < j < |r| ==> GetKey(r[i]) <= GetKey(r[j])
  {
    var a, b, c := WithKey(s, 1), WithKey(s, 2), WithKey(s, 3);
    KeyedRunsOrdered(a, b, c);
    a + b + c
  }

  /** Three runs of keys 1, 2 and 3, one after the other, are in key order. */
  lemma KeyedRunsOrdered(a: seq<MidiEvent>, b: seq<MidiEvent>, c: seq<MidiEvent>)
    requires forall i :: 0 <= i < |a| ==> GetKey(a[i]) == 1
    requires forall i :: 0 <= i < |b| ==> GetKey(b[i]) == 2
    requires forall i :: 0 <= i < |c| ==> GetKey(c[i]) == 3
    ensures var r := a + b + c;
      forall i, j :: 0 <= i < j < |r| ==> GetKey(r[i]) <= GetKey(r[j])
  {
    var r := a + b + c;
    forall i | 0 <= i < |r| ensures GetKey(r[i]) == (if i < |a| then 1 else if i < |a| + |b| then 2 else 3) {
      if i < |a| { assert r[i] == a[i]; }
      else if i < |a| + |b| { assert r[i] == b[i - |a|]; }
      else { assert r[i] == c[i - |a| - |b|]; }
    }
  }

  /** Every event has key 1, 2 or 3, so the sort keeps every event. */
  lemma {:induction false} SortByKeyPermutes(s: seq<MidiEvent>)
    ensures multiset(SortByKey(s)) == multiset(s)
  {
    if s != [] {
      var init := s[..|s| - 1];
      SortByKeyPermutes(init);
      assert s == init + [s[|s| - 1]];
    }
  }

  lemma {:induction false} WithKeyAppend(a: seq<MidiEvent>, b: seq<MidiEvent>, k: int)
    ensures WithKey(a + b, k) == WithKey(a, k) + WithKey(b, k)
    decreases |b|
  {
    if b == [] {
      assert a + b == a;
    } else {
      WithKeyAppend(a, b[..|b| - 1], k);
      assert (a + b)[..|a + b| - 1] == a + b[..|b| - 1];
    }
  }

  lemma {:induction false} WithKeyOf(s: seq<MidiEvent>, k: int, k': int)
    requires forall i :: 0 <= i < |s| ==> GetKey(s[i]) == k'
    ensures WithKey(s, k) == if k == k' then s else []
  {
    if s != [] {
      WithKeyOf(s[..|s| - 1], k, k');
      assert s == s[..|s| - 1] + [s[|s| - 1]];
    }
  }

  /** The sort is stable: events with equal keys keep their relative order. */
  lemma SortByKeyStable(s: seq<MidiEvent>, k: int)
    ensures WithKey(SortByKey(s), k) == WithKey(s, k)
  {
    var a, b, c := WithKey(s, 1), WithKey(s, 2), WithKey(s, 3);
    WithKeyAppend(a + b, c, k);
    WithKeyAppend(a, b, k);
    WithKeyOf(a, k, 1);
    WithKeyOf(b, k, 2);
    WithKeyOf(c, k, 3);
    if k != 1 && k != 2 && k != 3 {
      WithKeyNone(s, k);
    }
  }

  lemma {:induction false} WithKeyNone(s: seq<MidiEvent>, k: int)
    requires k != 1 && k != 2 && k != 3
    ensures WithKey(s, k) == []
  {
    if s != [] {
      WithKeyNone(s[..|s| - 1], k);
    }
  }

  /** The kept events of one tick, in file order. */
  function KeptAt(s: seq<TimedEvent>, tick: int): seq<MidiEvent>
  {
    if s == [] then []
    else
      var last := s[|s| - 1];
      KeptAt(s[..|s| - 1], tick) + if last.tick == tick && Kept(last.event) then [last.event] else []
  }

  lemma {:induction false} KeptAtAbsent(s: seq<TimedEvent>, tick: int)
    requires tick !in TicksOf(s)
    ensures KeptAt(s, tick) == []
  {
    if s != [] {
      KeptAtAbsent(s[..|s| - 1], tick);
    }
  }

  /** The ticks at which `s` has events, kept or not. */
  function TicksOf(s: seq<TimedEvent>): set<int>
  {
    if s == [] then {} else TicksOf(s[..|s| - 1]) + {s[|s| - 1].tick}
  }

  /** A tick is in `TicksOf(s)` exactly when some event of `s` is at it. */
  lemma {:induction false} TicksOfMembers(s: seq<TimedEvent>, t: int)
    ensures t in TicksOf(s) <==> exists i :: 0 <= i < |s| && s[i].tick == t
  {
    if s != [] {
      var init := s[..|s| - 1];
      TicksOfMembers(init, t);
      if exists i :: 0 <= i < |s| && s[i].tick == t {
        var i :| 0 <= i < |s| && s[i].tick == t;
        if i < |init| {
          assert init[i].tick == t;
        }
      }
      if exists i :: 0 <= i < |init| && init[i].tick == t {
        var i :| 0 <= i < |init| && init[i].tick == t;
        assert s[i].tick == t;
      }
    }
  }

  /**
   * The position of the first event of `s` at tick `t`, or `|s|` when no
   * event is at it.
   */
  function FirstIndex(s: seq<TimedEvent>, t: int): (i: nat)
    ensures i <= |s|
    ensures i < |s| ==> s[i].tick == t
    ensures forall j :: 0 <= j < i ==> s[j].tick != t
  {
    if s == [] then 0
    else if s[0].tick == t then 0
    else 1 + FirstIndex(s[1..], t)
  }

  /** Appending an event keeps every first position, and gives a new tick the last one. */
  lemma FirstIndexSnoc(s: seq<TimedEvent>, e: TimedEvent, t: int)
    ensures FirstIndex(s, t) < |s| ==> FirstIndex(s + [e], t) == FirstIndex(s, t)
    ensures FirstIndex(s, t) == |s| && e.tick == t ==> FirstIndex(s + [e], t) == |s|
  {
    var i, i' := FirstIndex(s, t), FirstIndex(s + [e], t);
    if i < |s| {
      assert (s + [e])[i] == s[i];
    } else if e.tick == t {
      assert (s + [e])[|s|] == e;
    }
  }

  /** `ticks` maps every tick of `s`, and no other, to its kept events in file order. */
  ghost predicate Collected(s: seq<TimedEvent>, ticks: map<int, seq<MidiEvent>>)
  {
    && ticks.Keys == TicksOf(s)
    && (forall t :: t in ticks ==> ticks[t] == KeptAt(s, t))
  }

  /** `order` lists the ticks of `s`, each once. */
  ghost predicate ListsTicks(s: seq<TimedEvent>, order: seq<int>)
  {
    && (forall t :: t in order <==> t in TicksOf(s))
    && (forall a :: 0 <= a < |order| ==> order[a] in TicksOf(s))
    && (forall a, b :: 0 <= a < b < |order| ==> order[a] != order[b])
  }

  /** Every tick of `order` occurs in `s`, and earlier ticks first occur earlier. */
  ghost predicate FirstSeen(s: seq<TimedEvent>, order: seq<int>)
  {
    && (forall a :: 0 <= a < |order| ==> FirstIndex(s, order[a]) < |s|)
    && (forall a, b :: 0 <= a < b < |order| ==> FirstIndex(s, order[a]) < FirstIndex(s, order[b]))
  }

  /** `order` lists the ticks of `s`, each once, in the order they first appear. */
  ghost predicate InFirstSeenOrder(s: seq<TimedEvent>, order: seq<int>)
  {
    ListsTicks(s, order) && FirstSeen(s, order)
  }

  /**
   * `ticks` maps every tick of `s` to its kept events, and `order` lists
   * the same ticks, each once, in the order they first appear.
   */
  ghost predicate GroupedBy(s: seq<TimedEvent>, ticks: map<int, seq<MidiEvent>>, order: seq<int>)
  {
    Collected(s, ticks) && InFirstSeenOrder(s, order)
  }

  /** One more event creates its tick's entry if missing and joins it if kept. */
  lemma CollectStep(s: seq<TimedEvent>, ticks: map<int, seq<MidiEvent>>, e: TimedEvent,
                    ticks': map<int, seq<MidiEvent>>)
    requires Collected(s, ticks)
    requires var withTick := if e.tick in ticks then ticks else ticks[e.tick := []];
      ticks' == if Kept(e.event) then withTick[e.tick := withTick[e.tick] + [e.event]] else withTick
    ensures Collected(s + [e], ticks')
  {
    assert (s + [e])[..|s|] == s;
    if e.tick !in ticks {
      KeptAtAbsent(s, e.tick);
    }
  }

  /** One more event appends its tick to the list when the tick is new. */
  lemma ListsStep(s: seq<TimedEvent>, order: seq<int>, e: TimedEvent, order': seq<int>)
    requires ListsTicks(s, order)
    requires order' == if e.tick in TicksOf(s) then order else order + [e.tick]
    ensures ListsTicks(s + [e], order')
  {
    assert (s + [e])[..|s|] == s;
    assert TicksOf(s + [e]) == TicksOf(s) + {e.tick};
  }

  /** An event at a tick already seen moves no first position. */
  lemma FirstSeenKeep(s: seq<TimedEvent>, order: seq<int>, e: TimedEvent)
    requires FirstSeen(s, order)
    ensures FirstSeen(s + [e], order)
  {
    forall a | 0 <= a < |order|
      ensures FirstIndex(s + [e], order[a]) == FirstIndex(s, order[a])
    {
      FirstIndexSnoc(s, e, order[a]);
    }
  }

  /** An event at a new tick puts that tick last, after every tick seen before. */
  lemma FirstSeenNew(s: seq<TimedEvent>, order: seq<int>, e: TimedEvent)
    requires FirstSeen(s, order) && FirstIndex(s, e.tick) == |s|
    ensures FirstSeen(s + [e], order + [e.tick])
  {
    var s', order' := s + [e], order + [e.tick];
    forall a | 0 <= a < |order|
      ensures FirstIndex(s', order[a]) == FirstIndex(s, order[a])
    {
      FirstIndexSnoc(s, e, order[a]);
    }
    FirstIndexSnoc(s, e, e.tick);
    forall a | 0 <= a < |order'|
      ensures FirstIndex(s', order'[a]) < |s'|
    {
      if a < |order| {
        assert order'[a] == order[a];
      }
    }
    forall a, b | 0 <= a < b < |order'|
      ensures FirstIndex(s', order'[a]) < FirstIndex(s', order'[b])
    {
      assert order'[a] == order[a];
      if b < |order| {
        assert order'[b] == order[b];
      }
    }
  }

  /** One more event keeps the ticks listed in the order they first appear. */
  lemma OrderStep(s: seq<TimedEvent>, order: seq<int>, e: TimedEvent, order': seq<int>)
    requires InFirstSeenOrder(s, order)
    requires order' == if e.tick in TicksOf(s) then order else order + [e.tick]
    ensures InFirstSeenOrder(s + [e], order')
  {
    ListsStep(s, order, e, order');
    if e.tick in TicksOf(s) {
      FirstSeenKeep(s, order, e);
    } else {
      TicksOfMembers(s, e.tick);
      FirstSeenNew(s, order, e);
    }
  }

  /**
   * One more event: its tick gets a group if it has none yet, and the event
   * joins that group if it is kept.
   */
  lemma GroupStep(s: seq<TimedEvent>, ticks: map<int, seq<MidiEvent>>, order: seq<int>, e: TimedEvent,
                  ticks': map<int, seq<MidiEvent>>, order': seq<int>)
    requires GroupedBy(s, ticks, order)
    requires order' == if e.tick in ticks then order else order + [e.tick]
    requires var withTick := if e.tick in ticks then ticks else ticks[e.tick := []];
      ticks' == if Kept(e.event) then withTick[e.tick := withTick[e.tick] + [e.event]] else withTick
    ensures GroupedBy(s + [e], ticks', order')
  {
    CollectStep(s, ticks, e, ticks');
    OrderStep(s, order, e, order');
  }

  predicate StrictlyAscending(gs: seq<TickGroup>)
  {
    forall i, j :: 0 <= i < j < |gs| ==> gs[i].tick < gs[j].tick
  }

  /** Insert a group into a list ascending by tick. */
  function InsertByTick(gs: seq<TickGroup>, g: TickGroup): (r: seq<TickGroup>)
    ensures |r| == |gs| + 1
    ensures multiset(r) == multiset(gs) + multiset{g}
  {
    if gs == [] then [g]
    else if g.tick <= gs[0].tick then [g] + gs
    else
      assert gs == [gs[0]] + gs[1..];
      [gs[0]] + InsertByTick(gs[1..], g)
  }

  /** `list.sort()` on groups with distinct ticks: an insertion sort by tick. */
  function SortByTick(gs: seq<TickGroup>): (r: seq<TickGroup>)
    ensures multiset(r) == multiset(gs)
  {
    if gs == [] then []
    else
      assert gs == gs[..|gs| - 1] + [gs[|gs| - 1]];
      InsertByTick(SortByTick(gs[..|gs| - 1]), gs[|gs| - 1])
  }

  lemma {:induction false} InsertByTickAscending(gs: seq<TickGroup>, g: TickGroup)
    requires StrictlyAscending(gs) && forall i :: 0 <= i < |gs| ==> gs[i].tick != g.tick
    ensures StrictlyAscending(InsertByTick(gs, g))
  {
    if gs != [] && g.tick > gs[0].tick {
      InsertByTickAscending(gs[1..], g);
      var r := InsertByTick(gs, g);
      forall i | 1 <= i < |r| ensures gs[0].tick < r[i].tick {
        assert r[i] in multiset(InsertByTick(gs[1..], g));
        assert r[i] in gs[1..] || r[i] == g;
      }
    }
  }

  ghost predicate DistinctTicks(gs: seq<TickGroup>)
  {
    forall i, j :: 0 <= i < j < |gs| ==> gs[i].tick != gs[j].tick
  }

  /** Sorting groups with distinct ticks puts them in strictly ascending tick order. */
  lemma {:induction false} SortByTickAscending(gs: seq<TickGroup>)
    requires DistinctTicks(gs)
    ensures StrictlyAscending(SortByTick(gs))
  {
    if gs != [] {
      var init := gs[..|gs| - 1];
      var g := gs[|gs| - 1];
      SortByTickAscending(init);
      var sorted := SortByTick(init);
      forall i | 0 <= i < |sorted| ensures sorted[i].tick != g.tick {
        assert sorted[i] in multiset(init);
        var j :| 0 <= j < |init| && init[j] == sorted[i];
      }
      InsertByTickAscending(sorted, g);
    }
  }

  lemma SortByTickMembers(gs: seq<TickGroup>)
    ensures forall g :: g in SortByTick(gs) <==> g in gs
  {
    forall g ensures g in SortByTick(gs) <==> g in gs {
      assert g in SortByTick(gs) <==> g in multiset(SortByTick(gs));
    }
  }

  // ---------------------------------------------------------------------
  // The grouping loops of passive_play

  /**
   * The first loop of `passive_play`: a list of events per tick, in file
   * order, keeping Note On, Note Off and Set Tempo events only, and the
   * ticks in the order they first appear (the dictionary's order).
   */
  method GroupByTick(midi: seq<TimedEvent>) returns (ticks: map<int, seq<MidiEvent>>, order: seq<int>)
    ensures GroupedBy(midi, ticks, order)
  {
    ticks := map[];
    order := [];
    for i := 0 to |midi|
      invariant GroupedBy(midi[..i], ticks, order)
    {
      ghost var ticks0, order0 := ticks, order;
      var tick := midi[i].tick;
      var event := midi[i].event;
      if tick !in ticks {
        ticks := ticks[tick := []];
        order := order + [tick];
      }
      if Kept(event) {
        ticks := ticks[tick := ticks[tick] + [event]];
      }
      GroupStep(midi[..i], ticks0, order0, midi[i], ticks, order);
      assert midi[..i + 1] == midi[..i] + [midi[i]];
    }
    assert midi[..|midi|] == midi;
  }

  /**
   * The grouping and sorting of `passive_play(midilike)`: one group per
   * tick that has any event, holding that tick's Note Off, Note On and
   * Set Tempo events stably sorted by `getKey`, the groups in ascending
   * tick order.
   */
  method PassivePlay(midi: seq<TimedEvent>) returns (sortedTicks: seq<TickGroup>)
    ensures StrictlyAscending(sortedTicks)
    ensures (set g | g in sortedTicks :: g.tick) == TicksOf(midi)
    ensures forall g :: g in sortedTicks ==> g.events == SortByKey(KeptAt(midi, g.tick))
  {
    var ticks, order := GroupByTick(midi);
    var groups := SortEachGroup(ticks, order);
    sortedTicks := SortByTick(groups);
    SortedGroups(midi, ticks, order, groups);
  }

  /**
   * The second loop of `passive_play`: one group per listed tick, in the
   * listed order, holding that tick's events sorted by `getKey`.
   */
  method SortEachGroup(ticks: map<int, seq<MidiEvent>>, order: seq<int>) returns (groups: seq<TickGroup>)
    requires forall a :: 0 <= a < |order| ==> order[a] in ticks
    ensures |groups| == |order|
    ensures forall a :: 0 <= a < |order| ==> groups[a] == TickGroup(order[a], SortByKey(ticks[order[a]]))
  {
    groups := [];
    for j := 0 to |order|
      invariant |groups| == j
      invariant forall a :: 0 <= a < j ==> groups[a] == TickGroup(order[a], SortByKey(ticks[order[a]]))
    {
      var g := TickGroup(order[j], SortByKey(ticks[order[j]]));
      assert forall a :: 0 <= a < j ==> (groups + [g])[a] == groups[a];
      groups := groups + [g];
    }
  }

  /** Sorting the groups of every tick of a file by tick gives what `passive_play` hands on. */
  lemma SortedGroups(midi: seq<TimedEvent>, ticks: map<int, seq<MidiEvent>>, order: seq<int>, groups: seq<TickGroup>)
    requires Collected(midi, ticks) && ListsTicks(midi, order)
    requires |groups| == |order|
    requires forall a :: 0 <= a < |order| ==> groups[a] == TickGroup(order[a], SortByKey(ticks[order[a]]))
    ensures StrictlyAscending(SortByTick(groups))
    ensures (set g | g in SortByTick(groups) :: g.tick) == TicksOf(midi)
    ensures forall g :: g in SortByTick(groups) ==> g.events == SortByKey(KeptAt(midi, g.tick))
  {
    GroupsDistinct(order, groups);
    SortByTickAscending(groups);
    SortByTickMembers(groups);
    GroupsOfTicks(midi, ticks, order, groups);
  }

  /** Groups made from a list of distinct ticks have distinct ticks. */
  lemma GroupsDistinct(order: seq<int>, groups: seq<TickGroup>)
    requires forall a, b :: 0 <= a < b < |order| ==> order[a] != order[b]
    requires |groups| == |order| && forall a :: 0 <= a < |order| ==> groups[a].tick == order[a]
    ensures DistinctTicks(groups)
  {
  }

  /** The groups made from the listed ticks are exactly the ticks of the file, with their kept events. */
  lemma GroupsOfTicks(midi: seq<TimedEvent>, ticks: map<int, seq<MidiEvent>>, order: seq<int>, groups: seq<TickGroup>)
    requires Collected(midi, ticks) && ListsTicks(midi, order)
    requires |groups| == |order|
    requires forall a :: 0 <= a < |order| ==> groups[a] == TickGroup(order[a], SortByKey(ticks[order[a]]))
    ensures (set g | g in groups :: g.tick) == TicksOf(midi)
    ensures forall g :: g in groups ==> g.events == SortByKey(KeptAt(midi, g.tick))
  {
    forall g | g in groups
      ensures g.tick in TicksOf(midi) && g.events == SortByKey(KeptAt(midi, g.tick))
    {
      var a :| 0 <= a < |groups| && groups[a] == g;
      assert order[a] in ticks;
    }
    forall t | t in TicksOf(midi) ensures t in (set g | g in groups :: g.tick) {
      var a :| 0 <= a < |order| && order[a] == t;
      assert groups[a] in groups;
    }
  }


}
