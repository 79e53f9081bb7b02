/**
 * The drive allocator of FDDC.py (class FDDC) on values.
 *
 * A pool of free drive indices (`available`, an ordered list) and a table of
 * drives in use, keyed by (note, channel), are updated by `play_note` and
 * `stop_note`; each MIDI channel may use only the drives of its map, and
 * asks for a number of drives per note.
 *
 * The drive objects are not modelled; what `play_note` and `stop_note` do to
 * them is recorded as `NoteOn`/`NoteOff` events.  The class `Fddc` in module
 * `DriveAllocator` is proved to update its fields as these functions say.
 */
module DrivePool {
  /** Number of MIDI channels, and so of per-channel drive maps. */
  const CHANNELS := 16
  /** The default map of every channel is drives 0..7. */
  const DEFAULT_MAP_SIZE := 8
  /** What `get_available_fdd` returns when no drive is free. */
  const NO_DRIVE := -1

  /** A key of the in-use table: the note and the channel that play it. */
  datatype Key = Key(note: int, channel: int)

  /** What happens to a drive object: started on a note, or stopped. */
  datatype DriveEvent = NoteOn(drive: int, note: int) | NoteOff(drive: int)

  /** The allocator's mutable state: the free list and the in-use table. */
  datatype Pool = Pool(available: seq<int>, inUse: map<Key, seq<int>>)

  /** A new state together with the drive events that led to it. */
  datatype Effect = Effect(pool: Pool, events: seq<DriveEvent>)

  /** `list(range(n))`. */
  function Range(n: nat): (r: seq<int>)
    ensures |r| == n && forall i :: 0 <= i < n ==> r[i] == i
  {
    seq(n, i => i)
  }

  /** `reqmap.get(channel, 1)`: how many drives a note on this channel asks for. */
  function Requests(reqmap: map<int, int>, channel: int): (r: int)
    ensures channel in reqmap ==> r == reqmap[channel]
    ensures channel !in reqmap ==> r == 1
  {
    if channel in reqmap then reqmap[channel] else 1
  }

  /** One `note_on` per drive, in order. */
  function NoteOns(drives: seq<int>, note: int): (r: seq<DriveEvent>)
    ensures |r| == |drives|
  {
    if drives == [] then []
    else NoteOns(drives[..|drives| - 1], note) + [NoteOn(drives[|drives| - 1], note)]
  }

  /** One `note_off` per drive, in order. */
  function NoteOffs(drives: seq<int>): (r: seq<DriveEvent>)
    ensures |r| == |drives|
  {
    if drives == [] then []
    else NoteOffs(drives[..|drives| - 1]) + [NoteOff(drives[|drives| - 1])]
  }

  lemma NoteOnsSnoc(drives: seq<int>, d: int, note: int)
    ensures NoteOns(drives + [d], note) == NoteOns(drives, note) + [NoteOn(d, note)]
  {
    assert (drives + [d])[..|drives|] == drives;
  }

  lemma NoteOffsSnoc(drives: seq<int>, d: int)
    ensures NoteOffs(drives + [d]) == NoteOffs(drives) + [NoteOff(d)]
  {
    assert (drives + [d])[..|drives|] == drives;
  }

  // ---------------------------------------------------------------------
  // Taking one drive (get_available_fdd)

  /**
   * The position in `available`, from `i` on, of the earliest entry that
   * the channel's map allows, or -1 when there is none.
   */
  function FirstFrom(available: seq<int>, potentials: seq<int>, i: nat): (k: int)
    requires i <= |available|
    ensures k == -1 || i <= k < |available|
    decreases |available| - i
  {
    if i == |available| then -1
    else if available[i] in potentials then i
    else FirstFrom(available, potentials, i + 1)
  }

  /** The position of the first free drive the channel's map allows, or -1. */
  function FirstAvailable(available: seq<int>, potentials: seq<int>): (k: int)
    ensures -1 <= k < |available|
  {
    FirstFrom(available, potentials, 0)
  }

  lemma {:induction false} FirstFromFacts(available: seq<int>, potentials: seq<int>, i: nat)
    requires i <= |available|
    ensures var k := FirstFrom(available, potentials, i);
      && (k >= 0 ==> available[k] in potentials && forall j :: i <= j < k ==> available[j] !in potentials)
      && (k == -1 <==> forall j :: i <= j < |available| ==> available[j] !in potentials)
    decreases |available| - i
  {
    if i < |available| && available[i] !in potentials {
      FirstFromFacts(available, potentials, i + 1);
    }
  }

  /**
   * `FirstAvailable` finds the earliest free drive the map allows, and
   * reports -1 exactly when the free list holds no such drive.
   */
  lemma FirstAvailableFacts(available: seq<int>, potentials: seq<int>)
    ensures var k := FirstAvailable(available, potentials);
      && (k >= 0 ==> available[k] in potentials && forall i :: 0 <= i < k ==> available[i] !in potentials)
      && (k == -1 <==> forall i :: 0 <= i < |available| ==> available[i] !in potentials)
  {
    FirstFromFacts(available, potentials, 0);
  }

  /**
   * `get_available_fdd` on values: the drive taken (-1 if none) and the free
   * list afterwards.
   */
  function Take(available: seq<int>, potentials: seq<int>): (r: (int, seq<int>))
    ensures FirstAvailable(available, potentials) == -1 ==> r == (NO_DRIVE, available)
    ensures var k := FirstAvailable(available, potentials);
      k != -1 ==> r.0 == available[k]
  {
    var k := FirstAvailable(available, potentials);
    if k == -1 then (NO_DRIVE, available)
    else (available[k], RemoveAt(available, k))
  }

  /** `list.pop(k)`: the list without its entry at position `k`. */
  function RemoveAt(s: seq<int>, k: nat): (r: seq<int>)
    requires k < |s|
    ensures |r| == |s| - 1
    ensures forall i :: 0 <= i < k ==> r[i] == s[i]
    ensures forall i :: k <= i < |r| ==> r[i] == s[i + 1]
  {
    if k == 0 then s[1..] else [s[0]] + RemoveAt(s[1..], k - 1)
  }

  /** Removing an entry loses nothing else: the entry plus the rest is the whole. */
  lemma {:induction false} RemoveAtSplit(s: seq<int>, k: nat)
    requires k < |s|
    ensures multiset(s) == multiset(RemoveAt(s, k)) + multiset{s[k]}
  {
    assert s == [s[0]] + s[1..];
    if k > 0 {
      RemoveAtSplit(s[1..], k - 1);
      assert s[1..][k - 1] == s[k];
      assert RemoveAt(s, k) == [s[0]] + RemoveAt(s[1..], k - 1);
    }
  }

  /**
   * Taking a drive moves one entry out of the free list and loses nothing:
   * the list left plus the drive taken is the list before.
   */
  lemma TakeRemoves(available: seq<int>, potentials: seq<int>)
    requires FirstAvailable(available, potentials) != -1
    ensures var r := Take(available, potentials);
      multiset(available) == multiset(r.1) + multiset{r.0}
    ensures var k := FirstAvailable(available, potentials);
      Take(available, potentials).1 == available[..k] + available[k + 1..]
  {
    var k := FirstAvailable(available, potentials);
    RemoveAtSplit(available, k);
    assert RemoveAt(available, k) == available[..k] + available[k + 1..];
  }

  /** A drive that is taken is one the channel's map allows. */
  lemma TakeAllowed(available: seq<int>, potentials: seq<int>)
    requires FirstAvailable(available, potentials) != -1
    ensures Take(available, potentials).0 in potentials
  {
    FirstAvailableFacts(available, potentials);
  }

  /** On a free list without -1, a request fails exactly when no drive is allowed. */
  lemma TakeFound(available: seq<int>, potentials: seq<int>)
    requires NO_DRIVE !in available
    ensures Take(available, potentials).0 == NO_DRIVE <==> FirstAvailable(available, potentials) == -1
  {
    var k := FirstAvailable(available, potentials);
    if k != -1 {
      assert available[k] in available;
    }
  }

  /** Taking a drive never puts -1 into a free list that did not hold it. */
  lemma TakeKeepsOutNoDrive(available: seq<int>, potentials: seq<int>)
    requires NO_DRIVE !in available
    ensures NO_DRIVE !in Take(available, potentials).1
  {
    var k := FirstAvailable(available, potentials);
    if k != -1 {
      RemoveAtSplit(available, k);
      assert NO_DRIVE !in multiset(available);
    }
  }

  // ---------------------------------------------------------------------
  // Playing and stopping a note (play_note, stop_note)

  /** The free list and the drives taken, in order, after some requests. */
  datatype Allocation = Allocation(available: seq<int>, drives: seq<int>)

  /** `req` requests in a row, each taking the earliest allowed free drive. */
  function AllocateN(available: seq<int>, potentials: seq<int>, req: int): (a: Allocation)
    ensures |a.drives| == (if req <= 0 then 0 else req)
    decreases req
  {
    if req <= 0 then Allocation(available, [])
    else
      var prev := AllocateN(available, potentials, req - 1);
      var t := Take(prev.available, potentials);
      Allocation(t.1, prev.drives + [t.0])
  }

  /** One more request takes one more drive from what the earlier ones left. */
  lemma AllocateNStep(available: seq<int>, potentials: seq<int>, req: nat,
                      left: seq<int>, drives: seq<int>, d: int, left': seq<int>)
    requires req >= 1
    requires Allocation(left, drives) == AllocateN(available, potentials, req - 1)
    requires (d, left') == Take(left, potentials)
    ensures Allocation(left', drives + [d]) == AllocateN(available, potentials, req)
  {
  }

  /**
   * `play_note(note, channel)` on values.  A key already playing is left
   * alone; when the very first request fails the note is dropped; otherwise
   * every request's result, -1 included, is stored under the key and every
   * one of them is started.
   */
  function PlayNoteSpec(p: Pool, potentials: seq<int>, req: int, key: Key): (e: Effect)
    ensures forall k :: k in p.inUse ==> k in e.pool.inUse && e.pool.inUse[k] == p.inUse[k]
    ensures e.pool.inUse.Keys <= p.inUse.Keys + {key}
    ensures key in p.inUse ==> e == Effect(p, [])
    ensures key !in p.inUse && key in e.pool.inUse ==>
      |e.pool.inUse[key]| == (if req <= 0 then 0 else req) && e.events == NoteOns(e.pool.inUse[key], key.note)
    ensures key !in e.pool.inUse ==> e.events == []
  {
    if key in p.inUse then Effect(p, [])
    else if req >= 1 && Take(p.available, potentials).0 == NO_DRIVE then
      Effect(Pool(Take(p.available, potentials).1, p.inUse), [])
    else
      var a := AllocateN(p.available, potentials, req);
      Effect(Pool(a.available, p.inUse[key := a.drives]), NoteOns(a.drives, key.note))
  }

  /** When the first request finds no drive, `play_note` only keeps what the scan left. */
  lemma PlayNoteFirstFails(p: Pool, potentials: seq<int>, req: int, key: Key, left: seq<int>)
    requires key !in p.inUse && req >= 1 && Take(p.available, potentials) == (NO_DRIVE, left)
    ensures PlayNoteSpec(p, potentials, req, key) == Effect(Pool(left, p.inUse), [])
  {
  }

  /**
   * Where `play_note` stands after `i` requests: what is left free, the
   * drives taken and the events so far are those of `i` requests, and if
   * any request was made the first one found a drive.
   */
  ghost predicate PlayNoteProgress(start: seq<int>, potentials: seq<int>, i: nat, left: seq<int>,
                                   drives: seq<int>, events: seq<DriveEvent>, note: int)
  {
    && Allocation(left, drives) == AllocateN(start, potentials, i)
    && events == NoteOns(drives, note)
    && (i >= 1 ==> Take(start, potentials).0 != NO_DRIVE)
  }

  /** One more request that does not end `play_note` early. */
  lemma PlayNoteProgressStep(start: seq<int>, potentials: seq<int>, i: nat, left: seq<int>,
                             drives: seq<int>, events: seq<DriveEvent>, note: int, d: int, left': seq<int>)
    requires PlayNoteProgress(start, potentials, i, left, drives, events, note)
    requires (d, left') == Take(left, potentials) && (d != NO_DRIVE || drives != [])
    ensures PlayNoteProgress(start, potentials, i + 1, left', drives + [d], events + [NoteOn(d, note)], note)
  {
    NoteOnsSnoc(drives, d, note);
    AllocateNStep(start, potentials, i + 1, left, drives, d, left');
  }

  /** When all requests are made, `play_note` has done what `PlayNoteSpec` says. */
  lemma PlayNoteCompletes(p: Pool, potentials: seq<int>, req: int, key: Key, i: nat,
                          drives: seq<int>, events: seq<DriveEvent>, left: seq<int>)
    requires key !in p.inUse && (i == req || (i == 0 && req <= 0))
    requires PlayNoteProgress(p.available, potentials, i, left, drives, events, key.note)
    ensures PlayNoteSpec(p, potentials, req, key) == Effect(Pool(left, p.inUse[key := drives]), events)
  {
  }

  /**
   * `stop_note(note, channel)` on values: the key's drives go back to the end
   * of the free list in stored order and are stopped; an unknown key is
   * ignored.
   */
  function StopNoteSpec(p: Pool, key: Key): (e: Effect)
    ensures e.pool.inUse.Keys == p.inUse.Keys - {key}
    ensures forall k :: k in e.pool.inUse ==> e.pool.inUse[k] == p.inUse[k]
    ensures |e.pool.available| >= |p.available| && e.pool.available[..|p.available|] == p.available
    ensures key in p.inUse ==>
      e.pool.available[|p.available|..] == p.inUse[key] && e.events == NoteOffs(p.inUse[key])
    ensures key !in p.inUse ==> e == Effect(p, [])
  {
    if key !in p.inUse then Effect(p, [])
    else Effect(Pool(p.available + p.inUse[key], p.inUse - {key}), NoteOffs(p.inUse[key]))
  }

  /** Requests only ever remove entries from the free list. */
  lemma {:induction false} AllocateNKeepsOutNoDrive(available: seq<int>, potentials: seq<int>, req: int)
    requires NO_DRIVE !in available
    ensures NO_DRIVE !in AllocateN(available, potentials, req).available
    decreases req
  {
    if req > 0 {
      AllocateNKeepsOutNoDrive(available, potentials, req - 1);
      TakeKeepsOutNoDrive(AllocateN(available, potentials, req - 1).available, potentials);
    }
  }

  /** What is left of `whole` plus what was taken is what there was. */
  ghost predicate Conserved(whole: seq<int>, a: Allocation)
  {
    multiset(whole) == multiset(a.available) + multiset(a.drives)
  }

  /** One successful request keeps the free list and the drives taken conserved. */
  lemma ConserveStep(whole: seq<int>, a: Allocation, potentials: seq<int>)
    requires Conserved(whole, a)
    requires Take(a.available, potentials).0 != NO_DRIVE
    ensures Conserved(whole, Allocation(Take(a.available, potentials).1,
                                        a.drives + [Take(a.available, potentials).0]))
  {
    TakeRemoves(a.available, potentials);
  }

  /**
   * Requests that all succeed take their drives out of the free list and
   * add nothing: what is left plus what was taken is what there was.
   */
  lemma {:induction false} AllocateNConserves(available: seq<int>, potentials: seq<int>, req: int)
    ensures NO_DRIVE !in AllocateN(available, potentials, req).drives ==>
      Conserved(available, AllocateN(available, potentials, req))
    decreases req
  {
    if req > 0 {
      var prev := AllocateN(available, potentials, req - 1);
      var t := Take(prev.available, potentials);
      if t.0 != NO_DRIVE && NO_DRIVE !in prev.drives {
        AllocateNConserves(available, potentials, req - 1);
        ConserveStep(available, prev, potentials);
      }
    }
  }

  /** Every drive in `drives` other than -1 is in the channel's map. */
  predicate Allowed(drives: seq<int>, potentials: seq<int>)
  {
    forall i :: 0 <= i < |drives| && drives[i] != NO_DRIVE ==> drives[i] in potentials
  }

  /** Every drive a request returns, other than -1, is in the channel's map. */
  lemma {:induction false} AllocateNAllowed(available: seq<int>, potentials: seq<int>, req: int)
    ensures Allowed(AllocateN(available, potentials, req).drives, potentials)
    decreases req
  {
    if req > 0 {
      AllocateNAllowed(available, potentials, req - 1);
      var prev := AllocateN(available, potentials, req - 1);
      var t := Take(prev.available, potentials);
      var a := AllocateN(available, potentials, req);
      assert a.drives == prev.drives + [t.0];
      forall i | 0 <= i < |a.drives| && a.drives[i] != NO_DRIVE
        ensures a.drives[i] in potentials
      {
        if i < |prev.drives| {
          assert a.drives[i] == prev.drives[i];
        } else {
          assert FirstAvailable(prev.available, potentials) != -1;
          TakeAllowed(prev.available, potentials);
        }
      }
    }
  }

  /**
   * Once a request fails on a pool that never holds -1, no free drive is
   * allowed on the channel any more.
   */
  lemma {:induction false} AllocateNExhausted(available: seq<int>, potentials: seq<int>, req: int)
    requires NO_DRIVE !in available
    ensures NO_DRIVE in AllocateN(available, potentials, req).drives ==>
      FirstAvailable(AllocateN(available, potentials, req).available, potentials) == -1
    decreases req
  {
    if req > 0 {
      AllocateNExhausted(available, potentials, req - 1);
      AllocateNKeepsOutNoDrive(available, potentials, req - 1);
      var prev := AllocateN(available, potentials, req - 1);
      TakeFound(prev.available, potentials);
      if NO_DRIVE in prev.drives {
        assert Take(prev.available, potentials) == (NO_DRIVE, prev.available);
      } else {
        var t := Take(prev.available, potentials);
        assert AllocateN(available, potentials, req).drives == prev.drives + [t.0];
      }
    }
  }

  /** Once a -1 appears in `drives`, every later entry is -1 too. */
  ghost predicate Sticky(drives: seq<int>)
  {
    forall i, j :: 0 <= i <= j < |drives| && drives[i] == NO_DRIVE ==> drives[j] == NO_DRIVE
  }

  lemma StickyStep(drives: seq<int>, d: int)
    requires Sticky(drives)
    requires NO_DRIVE in drives ==> d == NO_DRIVE
    ensures Sticky(drives + [d])
  {
    var ds := drives + [d];
    forall i, j | 0 <= i <= j < |ds| && ds[i] == NO_DRIVE
      ensures ds[j] == NO_DRIVE
    {
      if j < |drives| {
        assert ds[i] == drives[i] && ds[j] == drives[j];
      } else if i < |drives| {
        assert drives[i] in drives;
      }
    }
  }

  /** Once a request fails, every later request of the same note fails too. */
  lemma {:induction false} AllocateNSticky(available: seq<int>, potentials: seq<int>, req: int)
    requires NO_DRIVE !in available
    ensures Sticky(AllocateN(available, potentials, req).drives)
    decreases req
  {
    if req > 0 {
      AllocateNSticky(available, potentials, req - 1);
      AllocateNExhausted(available, potentials, req - 1);
      var prev := AllocateN(available, potentials, req - 1);
      StickyStep(prev.drives, Take(prev.available, potentials).0);
    }
  }

  /**
   * `play_note` when every request succeeds: the key now holds the drives
   * taken, in the order they were taken, each one allowed on the channel and
   * removed from the free list, and no other key changes.  When the first
   * request fails nothing changes at all.
   */
  lemma PlayNoteOutcome(p: Pool, potentials: seq<int>, req: int, key: Key)
    requires NO_DRIVE !in p.available && key !in p.inUse
    ensures var e := PlayNoteSpec(p, potentials, req, key);
      var a := AllocateN(p.available, potentials, req);
      && (req >= 1 && FirstAvailable(p.available, potentials) == -1 ==> e == Effect(p, []))
      && (NO_DRIVE !in a.drives ==>
            && e.pool.inUse == p.inUse[key := a.drives]
            && |a.drives| == (if req <= 0 then 0 else req)
            && (forall d :: d in a.drives ==> d in potentials)
            && multiset(p.available) == multiset(e.pool.available) + multiset(a.drives)
            && e.events == NoteOns(a.drives, key.note))
  {
    var a := AllocateN(p.available, potentials, req);
    var e := PlayNoteSpec(p, potentials, req, key);
    if req >= 1 && FirstAvailable(p.available, potentials) == -1 {
      assert Take(p.available, potentials) == (NO_DRIVE, p.available);
    }
    if NO_DRIVE !in a.drives {
      AllocateNConserves(p.available, potentials, req);
      AllocateNAllowed(p.available, potentials, req);
      if req >= 1 {
        AllocateNPrefix(p.available, potentials, req);
        assert a.drives[0] in a.drives;
        assert Take(p.available, potentials).0 != NO_DRIVE;
      }
      assert e == Effect(Pool(a.available, p.inUse[key := a.drives]), NoteOns(a.drives, key.note));
      forall d | d in a.drives ensures d in potentials {
        var i :| 0 <= i < |a.drives| && a.drives[i] == d;
      }
    }
  }

  /** Later requests only append to what earlier ones took. */
  lemma {:induction false} AllocateNPrefix(available: seq<int>, potentials: seq<int>, req: int)
    requires req >= 1
    ensures AllocateN(available, potentials, req).drives[0] == Take(available, potentials).0
    decreases req
  {
    if req > 1 {
      AllocateNPrefix(available, potentials, req - 1);
    }
  }

  // ---------------------------------------------------------------------
  // The pool invariant: every drive is either free, exactly once, or held
  // by exactly one key, exactly once.

  ghost predicate NoDup(s: seq<int>)
  {
    forall x :: multiset(s)[x] <= 1
  }

  ghost predicate Held(inUse: map<Key, seq<int>>, x: int)
  {
    exists k :: k in inUse && x in inUse[k]
  }

  /** Drives 0..n-1 are split between the free list and the in-use table. */
  ghost predicate Partitioned(p: Pool, n: nat)
  {
    && NoDup(p.available)
    && (forall k :: k in p.inUse ==> NoDup(p.inUse[k]))
    && (forall k, x :: k in p.inUse && x in p.inUse[k] ==> x !in p.available)
    && (forall k1, k2, x :: k1 in p.inUse && k2 in p.inUse && x in p.inUse[k1] && x in p.inUse[k2] ==> k1 == k2)
    && (forall x :: x in p.available || Held(p.inUse, x) <==> 0 <= x < n)
  }

  lemma {:induction false} RangeFacts(n: nat)
    ensures NoDup(Range(n)) && forall x :: x in Range(n) <==> 0 <= x < n
  {
    if n > 0 {
      RangeFacts(n - 1);
      assert Range(n) == Range(n - 1) + [n - 1];
    }
    forall x | 0 <= x < n ensures x in Range(n) {
      assert Range(n)[x] == x;
    }
  }

  /** After construction every drive is free and none is held. */
  lemma InitialPartition(n: nat)
    ensures Partitioned(Pool(Range(n), map[]), n)
  {
    RangeFacts(n);
  }

  /** Splitting a list without duplicates into two parts, as multisets. */
  lemma SplitFacts(whole: seq<int>, left: seq<int>, taken: seq<int>)
    requires NoDup(whole) && multiset(whole) == multiset(left) + multiset(taken)
    ensures NoDup(left) && NoDup(taken)
    ensures forall x :: x in whole <==> x in left || x in taken
    ensures forall x :: x in taken ==> x !in left
  {
    forall x ensures multiset(left)[x] <= 1 && multiset(taken)[x] <= 1 {
      assert multiset(whole)[x] == multiset(left)[x] + multiset(taken)[x];
    }
    forall x ensures x in whole <==> x in left || x in taken {
      assert multiset(whole)[x] == multiset(left)[x] + multiset(taken)[x];
    }
    forall x | x in taken ensures x !in left {
      assert multiset(whole)[x] == multiset(left)[x] + multiset(taken)[x];
    }
  }

  /** The note's requests either all find a drive or the very first finds none. */
  predicate AllOrNothing(available: seq<int>, potentials: seq<int>, req: int)
  {
    NO_DRIVE !in AllocateN(available, potentials, req).drives
    || (req >= 1 && FirstAvailable(available, potentials) == -1)
  }

  /**
   * `play_note` keeps every drive either free or held by one key, as long as
   * it does not end up storing -1 (all requests succeed, or the first fails).
   */
  lemma PlayNoteKeepsPartition(p: Pool, n: nat, potentials: seq<int>, req: int, key: Key)
    requires Partitioned(p, n) && AllOrNothing(p.available, potentials, req)
    ensures Partitioned(PlayNoteSpec(p, potentials, req, key).pool, n)
  {
    if key in p.inUse { return; }
    if req >= 1 && FirstAvailable(p.available, potentials) == -1 {
      assert PlayNoteSpec(p, potentials, req, key).pool == p;
      return;
    }
    var a := AllocateN(p.available, potentials, req);
    if req >= 1 {
      AllocateNPrefix(p.available, potentials, req);
      assert a.drives[0] in a.drives;
    }
    assert PlayNoteSpec(p, potentials, req, key).pool == Pool(a.available, p.inUse[key := a.drives]);
    AllocateNConserves(p.available, potentials, req);
    PutKeepsPartition(p, n, a.available, a.drives, key);
  }

  /**
   * With at most one drive per note, `play_note` keeps every drive either
   * free or held by one key, whatever the free list and the map.
   */
  lemma SingleRequestKeepsPartition(p: Pool, n: nat, potentials: seq<int>, req: int, key: Key)
    requires Partitioned(p, n) && req <= 1
    ensures Partitioned(PlayNoteSpec(p, potentials, req, key).pool, n)
  {
    assert NO_DRIVE !in p.available;
    if req == 1 {
      var t := Take(p.available, potentials);
      TakeFound(p.available, potentials);
      assert AllocateN(p.available, potentials, 1).drives == [t.0];
    }
    PlayNoteKeepsPartition(p, n, potentials, req, key);
  }

  /**
   * Storing under a new key drives taken out of the free list, and nothing
   * else, keeps every drive either free or held by one key.
   */
  lemma PutKeepsPartition(p: Pool, n: nat, left: seq<int>, ds: seq<int>, key: Key)
    requires Partitioned(p, n) && key !in p.inUse
    requires multiset(p.available) == multiset(left) + multiset(ds)
    ensures Partitioned(Pool(left, p.inUse[key := ds]), n)
  {
    var q := Pool(left, p.inUse[key := ds]);
    SplitFacts(p.available, left, ds);
    HeldAfterPut(p.inUse, key, ds);
    forall k | k in q.inUse ensures NoDup(q.inUse[k]) {
      if k != key { assert q.inUse[k] == p.inUse[k]; }
    }
    forall k, x | k in q.inUse && x in q.inUse[k] ensures x !in q.available {
      if k != key { assert x in p.inUse[k]; }
    }
    forall k, x | k in p.inUse && x in p.inUse[k] ensures x !in ds {
      assert x !in p.available;
    }
    forall k1, k2, x | k1 in q.inUse && k2 in q.inUse && x in q.inUse[k1] && x in q.inUse[k2]
      ensures k1 == k2
    {
      if k1 != key && k2 != key {
        assert x in p.inUse[k1] && x in p.inUse[k2];
      }
    }
    forall x ensures x in q.available || Held(q.inUse, x) <==> 0 <= x < n {
      assert Held(q.inUse, x) <==> Held(p.inUse, x) || x in ds;
      assert x in p.available <==> x in left || x in ds;
    }
  }

  /** Who holds a drive after a new key is stored. */
  lemma HeldAfterPut(inUse: map<Key, seq<int>>, key: Key, ds: seq<int>)
    requires key !in inUse
    ensures forall x :: Held(inUse[key := ds], x) <==> Held(inUse, x) || x in ds
  {
    forall x ensures Held(inUse[key := ds], x) <==> Held(inUse, x) || x in ds {
      if Held(inUse[key := ds], x) {
        var k :| k in inUse[key := ds] && x in inUse[key := ds][k];
        if k != key { assert k in inUse && x in inUse[k]; }
      }
      if Held(inUse, x) {
        var k :| k in inUse && x in inUse[k];
        assert k in inUse[key := ds] && x in inUse[key := ds][k];
      }
      if x in ds {
        assert key in inUse[key := ds] && x in inUse[key := ds][key];
      }
    }
  }

  /** `stop_note` keeps every drive either free or held by one key. */
  lemma StopNoteKeepsPartition(p: Pool, n: nat, key: Key)
    requires Partitioned(p, n)
    ensures Partitioned(StopNoteSpec(p, key).pool, n)
  {
    if key !in p.inUse { return; }
    var q := StopNoteSpec(p, key).pool;
    var released := p.inUse[key];
    forall x ensures multiset(q.available)[x] <= 1 {
      if x in released { assert x !in p.available; }
    }
    forall x ensures x in q.available || Held(q.inUse, x) <==> x in p.available || Held(p.inUse, x) {
      if Held(p.inUse, x) {
        var k :| k in p.inUse && x in p.inUse[k];
        if k != key { assert k in q.inUse; }
      }
      if Held(q.inUse, x) {
        var k :| k in q.inUse && x in q.inUse[k];
        assert k in p.inUse;
      }
    }
  }

  /**
   * Stopping a note right after playing it, when every request succeeded,
   * gives the drives back: the in-use table is as before and the free list
   * holds the same drives, those just released now at its end.
   */
  lemma PlayThenStop(p: Pool, potentials: seq<int>, req: int, key: Key)
    requires NO_DRIVE !in p.available && key !in p.inUse
    requires NO_DRIVE !in AllocateN(p.available, potentials, req).drives
    ensures var q := StopNoteSpec(PlayNoteSpec(p, potentials, req, key).pool, key).pool;
      q.inUse == p.inUse && multiset(q.available) == multiset(p.available)
  {
    var a := AllocateN(p.available, potentials, req);
    if req >= 1 {
      AllocateNPrefix(p.available, potentials, req);
      assert a.drives[0] in a.drives;
    }
    var mid := Pool(a.available, p.inUse[key := a.drives]);
    assert PlayNoteSpec(p, potentials, req, key).pool == mid;
    assert StopNoteSpec(mid, key).pool == Pool(a.available + a.drives, p.inUse);
    AllocateNConserves(p.available, potentials, req);
  }

  /**
   * `play_note` when its first request finds a drive and a later one does
   * not: every request's result, -1 included, is stored under the key and
   * started, the stored list starts with a drive and ends in -1, and
   * stopping the note appends the whole stored list, -1 included, to the
   * free list.
   */
  lemma PartialAllocation(p: Pool, potentials: seq<int>, req: int, key: Key)
    requires NO_DRIVE !in p.available && key !in p.inUse
    requires Take(p.available, potentials).0 != NO_DRIVE
    requires NO_DRIVE in AllocateN(p.available, potentials, req).drives
    ensures var a := AllocateN(p.available, potentials, req);
      var played := PlayNoteSpec(p, potentials, req, key);
      && req >= 1 && |a.drives| == req
      && a.drives[0] != NO_DRIVE && a.drives[req - 1] == NO_DRIVE
      && played.pool == Pool(a.available, p.inUse[key := a.drives])
      && played.events == NoteOns(a.drives, key.note)
      && StopNoteSpec(played.pool, key).pool.available == a.available + a.drives
      && NO_DRIVE in StopNoteSpec(played.pool, key).pool.available
  {
    var a := AllocateN(p.available, potentials, req);
    AllocateNPrefix(p.available, potentials, req);
    AllocateNSticky(p.available, potentials, req);
    var i :| 0 <= i < |a.drives| && a.drives[i] == NO_DRIVE;
    assert a.drives[req - 1] == NO_DRIVE;
    assert (a.available + a.drives)[|a.available| + req - 1] == NO_DRIVE;
  }

  /**
   * For example, with one free drive and two drives per note, -1 is
   * stored with the drive taken, and stopping the note puts -1 on the free
   * list.
   */
  lemma PartialAllocationExample()
    ensures var p := Pool([0], map[]);
      var key := Key(60, 0);
      var played := PlayNoteSpec(p, [0], 2, key);
      && played.pool.inUse[key] == [0, NO_DRIVE]
      && played.events == [NoteOn(0, 60), NoteOn(NO_DRIVE, 60)]
      && StopNoteSpec(played.pool, key).pool.available == [0, NO_DRIVE]
  {
    assert FirstAvailable([0], [0]) == 0;
    assert FirstAvailable([], [0]) == -1;
    assert AllocateN([0], [0], 1) == Allocation([], [0]);
  }

}
