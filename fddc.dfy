/**
 * The FDDC object: the allocator state as fields, updated in place by
 * methods proved to follow the value-level specifications.
 */
module DriveAllocator {
  import opened Common
  import opened DrivePool
  import opened MidiDispatch

  // ---------------------------------------------------------------------
  // The allocator object

  class Fddc {
    var available: seq<int>
    var inUse: map<Key, seq<int>>
    var channelMap: seq<seq<int>>
    var reqmap: map<int, int>
    var playing: bool

    ghost predicate Valid()
      reads this
    {
      |channelMap| == CHANNELS
    }

    function State(): Pool
      reads this
    {
      Pool(available, inUse)
    }

    /**
     * `FDDC(pinout)`: one free drive per pin pair, numbered in order, none in
     * use, every channel mapped to drives 0..7, one drive per note.
     */
    constructor (pinout: seq<(int, int)>)
      ensures Valid()
      ensures available == Range(|pinout|) && inUse == map[]
      ensures channelMap == seq(CHANNELS, _ => Range(DEFAULT_MAP_SIZE)) && reqmap == map[]
      ensures !playing
      ensures Partitioned(State(), |pinout|)
    {
      var free: seq<int> := [];
      for i := 0 to |pinout|
        invariant free == Range(i)
      {
        free := free + [i];
      }
      available := free;
      inUse := map[];
      channelMap := seq(CHANNELS, _ => Range(DEFAULT_MAP_SIZE));
      reqmap := map[];
      playing := false;
      new;
      InitialPartition(|pinout|);
    }

    /** `reset_map`: every channel's map becomes empty. */
    method ResetMap()
      modifies this
      ensures Valid() && channelMap == seq(CHANNELS, _ => [])
      ensures available == old(available) && inUse == old(inUse)
      ensures reqmap == old(reqmap) && playing == old(playing)
    {
      channelMap := seq(CHANNELS, _ => []);
    }

    /** `reset_reqmap`: every channel asks for one drive per note again. */
    method ResetReqmap()
      modifies this
      ensures reqmap == map[] && forall c :: Requests(reqmap, c) == 1
      ensures available == old(available) && inUse == old(inUse)
      ensures channelMap == old(channelMap) && playing == old(playing)
    {
      reqmap := map[];
    }

    /** `set_map(channel, fdds)`: replaces one channel's map. */
    method SetMap(channel: int, fdds: seq<int>)
      requires Valid() && 0 <= channel < CHANNELS
      modifies this
      ensures Valid() && channelMap == old(channelMap)[channel := fdds]
      ensures available == old(available) && inUse == old(inUse)
      ensures reqmap == old(reqmap) && playing == old(playing)
    {
      channelMap := channelMap[channel := fdds];
    }

    /** `set_fdds_per_note(channel, count)`. */
    method SetFddsPerNote(channel: int, count: int)
      modifies this
      ensures reqmap == old(reqmap)[channel := count] && Requests(reqmap, channel) == count
      ensures available == old(available) && inUse == old(inUse)
      ensures channelMap == old(channelMap) && playing == old(playing)
    {
      reqmap := reqmap[channel := count];
    }

    /** `release_fdd(index)`: the drive goes back to the end of the free list. */
    method ReleaseFdd(index: int)
      modifies this`available
      ensures available == old(available) + [index]
    {
      available := available + [index];
    }

    /**
     * `get_available_fdd(note, channel)`: scans the free list in order for
     * the first drive in the channel's map, removes it and returns it, or
     * returns -1 and changes nothing.
     */
    method GetAvailableFdd(note: int, channel: int) returns (index: int)
      requires Valid() && 0 <= channel < CHANNELS
      modifies this`available
      ensures (index, available) == Take(old(available), channelMap[channel])
    {
      var aIndex := -1;
      var i := 0;
      while i < |available|
        invariant 0 <= i <= |available| && aIndex == -1
        invariant forall k :: 0 <= k < i ==> available[k] !in channelMap[channel]
      {
        var j := 0;
        while j < |channelMap[channel]|
          invariant 0 <= j <= |channelMap[channel]| && aIndex == -1
          invariant forall t :: 0 <= t < j ==> channelMap[channel][t] != available[i]
        {
          if channelMap[channel][j] == available[i] {
            aIndex := i;
            break;
          }
          j := j + 1;
        }
        if aIndex != -1 {
          break;
        }
        i := i + 1;
      }
      FirstAvailableFacts(available, channelMap[channel]);
      assert aIndex == FirstAvailable(available, channelMap[channel]);
      index := -1;
      if aIndex != -1 {
        index := available[aIndex];
        available := RemoveAt(available, aIndex);
      }
    }

    /**
     * `play_note(note, channel)`: asks for the channel's number of drives and
     * starts each one on the note, as `PlayNoteSpec` says.
     */
    method PlayNote(note: int, channel: int) returns (events: seq<DriveEvent>)
      requires Valid() && 0 <= channel < CHANNELS
      modifies this
      ensures Valid() && channelMap == old(channelMap) && reqmap == old(reqmap) && playing == old(playing)
      ensures Effect(State(), events)
              == PlayNoteSpec(old(State()), channelMap[channel], Requests(reqmap, channel), Key(note, channel))
    {
      events := [];
      var key := Key(note, channel);
      if key in inUse {
        return;
      }
      ghost var start := State();
      ghost var potentials := channelMap[channel];
      var req := if channel in reqmap then reqmap[channel] else 1;
      var drives: seq<int> := [];
      var i := 0;
      while i < req
        invariant 0 <= i && (i <= req || i == 0)
        invariant channelMap == old(channelMap) && reqmap == old(reqmap) && playing == old(playing)
        invariant inUse == start.inUse
        invariant PlayNoteProgress(start.available, potentials, i, available, drives, events, note)
      {
        ghost var before := available;
        var fddIndex := GetAvailableFdd(note, channel);
        if fddIndex == NO_DRIVE && drives == [] {
          PlayNoteFirstFails(start, potentials, req, key, available);
          return;
        }
        PlayNoteProgressStep(start.available, potentials, i, before, drives, events, note, fddIndex, available);
        drives := drives + [fddIndex];
        events := events + [NoteOn(fddIndex, note)];
        i := i + 1;
      }
      PlayNoteCompletes(start, potentials, req, key, i, drives, events, available);
      inUse := inUse[key := drives];
    }

    /**
     * `stop_note(note, channel)`: releases and stops the key's drives in
     * stored order and forgets the key, as `StopNoteSpec` says.
     */
    method StopNote(note: int, channel: int) returns (events: seq<DriveEvent>)
      modifies this
      ensures channelMap == old(channelMap) && reqmap == old(reqmap) && playing == old(playing)
      ensures Effect(State(), events) == StopNoteSpec(old(State()), Key(note, channel))
    {
      events := [];
      var key := Key(note, channel);
      if key !in inUse {
        return;
      }
      var fddIndexes := inUse[key];
      for i := 0 to |fddIndexes|
        invariant available == old(available) + fddIndexes[..i]
        invariant events == NoteOffs(fddIndexes[..i])
        invariant inUse == old(inUse) && channelMap == old(channelMap)
        invariant reqmap == old(reqmap) && playing == old(playing)
      {
        ReleaseFdd(fddIndexes[i]);
        NoteOffsSnoc(fddIndexes[..i], fddIndexes[i]);
        events := events + [NoteOff(fddIndexes[i])];
        assert fddIndexes[..i + 1] == fddIndexes[..i] + [fddIndexes[i]];
      }
      assert fddIndexes[..|fddIndexes|] == fddIndexes;
      inUse := inUse - {key};
    }

    /** What `play` does for one message it has read. */
    method Perform(c: Command) returns (events: seq<DriveEvent>)
      requires Valid() && ChannelOk(c)
      modifies this
      ensures Valid() && channelMap == old(channelMap) && reqmap == old(reqmap)
      ensures playing == (old(playing) && !c.EndOfTrack?)
      ensures Effect(State(), events) == Apply(old(State()), channelMap, reqmap, c)
    {
      events := [];
      match c
      case PlayCmd(note, channel) => events := PlayNote(note, channel);
      case StopCmd(note, channel) => events := StopNote(note, channel);
      case EndOfTrack => playing := false;
    }

    /**
     * `play(controller)` over a finite byte stream: dispatches every message
     * to `play_note`/`stop_note` until End-of-Track or the end of the stream;
     * only End-of-Track clears `playing`.
     */
    method Play(input: seq<Byte>) returns (events: seq<DriveEvent>)
      requires Valid()
      modifies this
      ensures Valid() && channelMap == old(channelMap) && reqmap == old(reqmap)
      ensures Effect(State(), events) == Run(old(State()), channelMap, reqmap, Dispatch(input))
      ensures playing <==> EndOfTrack !in Dispatch(input)
    {
      playing := true;
      events := [];
      var i := 0;
      ghost var done: seq<Command> := [];
      while playing && i < |input|
        invariant 0 <= i <= |input| && Valid()
        invariant channelMap == old(channelMap) && reqmap == old(reqmap)
        invariant forall k :: 0 <= k < |done| ==> ChannelOk(done[k])
        invariant playing ==> Dispatch(input) == done + Dispatch(input[i..]) && EndOfTrack !in done
        invariant !playing ==> Dispatch(input) == done && EndOfTrack in done
        invariant Effect(State(), events) == Run(old(State()), channelMap, reqmap, done)
        decreases |input| - i
      {
        ghost var from, before := i, State();
        var message;
        i, message := ReadMessage(input, i);
        DispatchStep(input, from, i, done, message);
        if message.Some? {
          var c := message.value;
          var e := Perform(c);
          RunStep(old(State()), channelMap, reqmap, done, c, before, events, State(), e);
          done := done + [c];
          events := events + e;
        }
      }
      if playing {
        assert input[i..] == [];
        assert done + Dispatch(input[i..]) == done;
      }
    }
  }

  /** The commands read so far, after one more message that led to `message`. */
  lemma DispatchStep(input: seq<Byte>, from: nat, next: nat, done: seq<Command>, message: Option<Command>)
    requires from <= next <= |input|
    requires Dispatch(input) == done + Dispatch(input[from..]) && EndOfTrack !in done
    requires message == Some(EndOfTrack) ==> Dispatch(input[from..]) == [EndOfTrack]
    requires message != Some(EndOfTrack) ==>
      Dispatch(input[from..]) == (if message.Some? then [message.value] else []) + Dispatch(input[next..])
    ensures message.None? ==> Dispatch(input) == done + Dispatch(input[next..])
    ensures message == Some(EndOfTrack) ==>
      Dispatch(input) == done + [message.value] && EndOfTrack in done + [message.value]
    ensures message.Some? && message.value != EndOfTrack ==>
      Dispatch(input) == (done + [message.value]) + Dispatch(input[next..]) && EndOfTrack !in done + [message.value]
  {
    match message
    case None =>
      assert [] + Dispatch(input[next..]) == Dispatch(input[next..]);
    case Some(c) =>
      if c != EndOfTrack {
        assert done + ([c] + Dispatch(input[next..])) == (done + [c]) + Dispatch(input[next..]);
      }
  }
}
