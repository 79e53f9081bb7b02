/**
 * The byte dispatch of `FDDC.play`: MIDI channel-voice messages become
 * `play_note`/`stop_note` calls, and End of Track stops the loop.
 */
module MidiDispatch {
  import opened Common
  import opened DrivePool

  // ---------------------------------------------------------------------
  // Byte dispatch (play)

  /** A call `play` makes for the bytes it reads. */
  datatype Command = PlayCmd(note: int, channel: int) | StopCmd(note: int, channel: int) | EndOfTrack

  predicate ChannelOk(c: Command)
  {
    !c.EndOfTrack? ==> 0 <= c.channel < CHANNELS
  }

  /**
   * The calls `play` makes for a byte stream, in order.  Note On (high
   * nibble 9) and Note Off (high nibble 8) take a note and a velocity byte;
   * 0xFF ends play when followed by 0x2F then 0x00, the second byte being
   * read only if the first matched; any other byte is skipped.  When the
   * stream runs out in the middle of a message, nothing more happens.
   */
  function Dispatch(s: seq<Byte>): (cmds: seq<Command>)
    ensures forall i :: 0 <= i < |cmds| ==> ChannelOk(cmds[i])
    decreases |s|
  {
    if s == [] then []
    else
      var b := s[0];
      if b / 16 == 9 then
        if |s| < 3 then [] else [PlayCmd(s[1], b % 16)] + Dispatch(s[3..])
      else if b / 16 == 8 then
        if |s| < 3 then [] else [StopCmd(s[1], b % 16)] + Dispatch(s[3..])
      else if b == 0xFF then
        if |s| < 2 then []
        else if s[1] != 0x2F then Dispatch(s[2..])
        else if |s| < 3 then []
        else if s[2] == 0x00 then [EndOfTrack]
        else Dispatch(s[3..])
      else Dispatch(s[1..])
  }

  /** End of Track can only be the last command: nothing is read after it. */
  lemma {:induction false} DispatchEndsPlay(s: seq<Byte>)
    ensures forall i :: 0 <= i < |Dispatch(s)| - 1 ==> !Dispatch(s)[i].EndOfTrack?
    decreases |s|
  {
    if s != [] {
      var b := s[0];
      if b / 16 == 9 || b / 16 == 8 {
        if |s| >= 3 {
          DispatchEndsPlay(s[3..]);
          assert forall i :: 1 <= i < |Dispatch(s)| ==> Dispatch(s)[i] == Dispatch(s[3..])[i - 1];
        }
      } else if b == 0xFF {
        if |s| >= 2 && s[1] != 0x2F {
          DispatchEndsPlay(s[2..]);
          assert Dispatch(s) == Dispatch(s[2..]);
        } else if |s| >= 3 && s[2] != 0x00 {
          DispatchEndsPlay(s[3..]);
          assert Dispatch(s) == Dispatch(s[3..]);
        }
      } else {
        DispatchEndsPlay(s[1..]);
        assert Dispatch(s) == Dispatch(s[1..]);
      }
    }
  }

  /** The bytes of one command, with a given velocity byte. */
  function EncodeCommand(c: Command, velocity: Byte): seq<Byte>
    requires c.EndOfTrack? || Encodable(c)
  {
    match c
    case PlayCmd(note, channel) => [0x90 + channel, note, velocity]
    case StopCmd(note, channel) => [0x80 + channel, note, velocity]
    case EndOfTrack => [0xFF, 0x2F, 0x00]
  }

  predicate Encodable(c: Command)
  {
    !c.EndOfTrack? && 0 <= c.channel < CHANNELS && 0 <= c.note < 256
  }

  /** The bytes of a list of commands, the i-th message carrying the i-th velocity byte. */
  function EncodeAll(cmds: seq<Command>, velocities: seq<Byte>): seq<Byte>
    requires |velocities| == |cmds|
    requires forall i :: 0 <= i < |cmds| ==> Encodable(cmds[i])
  {
    if cmds == [] then []
    else EncodeCommand(cmds[0], velocities[0]) + EncodeAll(cmds[1..], velocities[1..])
  }

  /**
   * Round trip: the Note On / Note Off messages of any commands, each with
   * its own velocity byte, followed by the End-of-Track meta-event,
   * dispatch to exactly those commands and then stop, whatever bytes follow.
   */
  lemma {:induction false} DispatchEncodeAll(cmds: seq<Command>, velocities: seq<Byte>, rest: seq<Byte>)
    requires |velocities| == |cmds|
    requires forall i :: 0 <= i < |cmds| ==> Encodable(cmds[i])
    ensures Dispatch(EncodeAll(cmds, velocities) + [0xFF, 0x2F, 0x00] + rest) == cmds + [EndOfTrack]
  {
    var s := EncodeAll(cmds, velocities) + [0xFF, 0x2F, 0x00] + rest;
    if cmds == [] {
      assert s == [0xFF, 0x2F, 0x00] + rest;
    } else {
      var head := EncodeCommand(cmds[0], velocities[0]);
      var tail := EncodeAll(cmds[1..], velocities[1..]) + [0xFF, 0x2F, 0x00] + rest;
      Regroup3(head, EncodeAll(cmds[1..], velocities[1..]), [0xFF, 0x2F, 0x00], rest);
      DispatchCommand(cmds[0], velocities[0], tail);
      DispatchEncodeAll(cmds[1..], velocities[1..], rest);
      assert cmds == [cmds[0]] + cmds[1..];
    }
  }

  /** One encoded command dispatches to itself, whatever follows it. */
  lemma DispatchCommand(c: Command, velocity: Byte, rest: seq<Byte>)
    requires Encodable(c)
    ensures Dispatch(EncodeCommand(c, velocity) + rest) == [c] + Dispatch(rest)
  {
    assert (EncodeCommand(c, velocity) + rest)[3..] == rest;
  }

  lemma Regroup3(a: seq<Byte>, b: seq<Byte>, c: seq<Byte>, d: seq<Byte>)
    ensures (a + b) + c + d == a + (b + c + d)
  {
  }

  /**
   * A 0xFF byte swallows the byte after it when that byte is not 0x2F, even
   * a status byte; 0xFF 0x2F swallows a third byte that is not 0x00 and play
   * goes on; any byte that is neither a Note On, a Note Off nor 0xFF is
   * skipped on its own.
   */
  lemma DispatchSkips(b: Byte, c: Byte, rest: seq<Byte>)
    ensures c != 0x2F ==> Dispatch([0xFF, c] + rest) == Dispatch(rest)
    ensures c != 0x00 ==> Dispatch([0xFF, 0x2F, c] + rest) == Dispatch(rest)
    ensures b / 16 != 9 && b / 16 != 8 && b != 0xFF ==> Dispatch([b] + rest) == Dispatch(rest)
  {
    assert ([0xFF, c] + rest)[2..] == rest;
    assert ([0xFF, 0x2F, c] + rest)[3..] == rest;
    assert ([b] + rest)[1..] == rest;
  }

  /** The effect of one command on the allocator. */
  function Apply(p: Pool, channelMap: seq<seq<int>>, reqmap: map<int, int>, c: Command): (r: Effect)
    requires |channelMap| == CHANNELS && ChannelOk(c)
    ensures c.EndOfTrack? ==> r == Effect(p, [])
    ensures forall k :: k in r.pool.inUse && !Names(c, k) ==> k in p.inUse && r.pool.inUse[k] == p.inUse[k]
    ensures forall k :: k in p.inUse && !Names(c, k) ==> k in r.pool.inUse
  {
    match c
    case PlayCmd(note, channel) =>
      PlayNoteSpec(p, channelMap[channel], Requests(reqmap, channel), Key(note, channel))
    case StopCmd(note, channel) => StopNoteSpec(p, Key(note, channel))
    case EndOfTrack => Effect(p, [])
  }

  /** Whether a command plays or stops the note of key `k`. */
  predicate Names(c: Command, k: Key)
  {
    !c.EndOfTrack? && Key(c.note, c.channel) == k
  }

  /**
   * The effect of a sequence of commands, applied in order.  A key that no
   * command names keeps exactly the drives it held, and a key comes into
   * use only through a command that names it.
   */
  function Run(p: Pool, channelMap: seq<seq<int>>, reqmap: map<int, int>, cmds: seq<Command>): (r: Effect)
    requires |channelMap| == CHANNELS && forall i :: 0 <= i < |cmds| ==> ChannelOk(cmds[i])
    ensures forall k :: k in p.inUse && (forall i :: 0 <= i < |cmds| ==> !Names(cmds[i], k)) ==>
      k in r.pool.inUse && r.pool.inUse[k] == p.inUse[k]
    ensures forall k :: k in r.pool.inUse && (forall i :: 0 <= i < |cmds| ==> !Names(cmds[i], k)) ==>
      k in p.inUse
  {
    if cmds == [] then Effect(p, [])
    else
      var prev := Run(p, channelMap, reqmap, cmds[..|cmds| - 1]);
      var last := Apply(prev.pool, channelMap, reqmap, cmds[|cmds| - 1]);
      Effect(last.pool, prev.events + last.events)
  }

  /**
   * The reads `play` makes for one message starting at `i`: the position
   * after it and the call it leads to, if any.  A message cut off by the
   * end of the stream reads to the end and leads to no call.
   */
  method ReadMessage(input: seq<Byte>, i: nat) returns (next: nat, message: Option<Command>)
    requires i < |input|
    ensures i < next <= |input|
    ensures message.Some? ==> ChannelOk(message.value)
    ensures message == Some(EndOfTrack) ==> Dispatch(input[i..]) == [EndOfTrack]
    ensures message != Some(EndOfTrack) ==>
      Dispatch(input[i..]) == (if message.Some? then [message.value] else []) + Dispatch(input[next..])
  {
    ghost var rest := input[i..];
    var byteOne := input[i];
    next := i + 1;
    message := None;
    if byteOne / 16 == 9 || byteOne / 16 == 8 {
      if next + 2 > |input| {
        // the stream ends inside the message
        next := |input|;
      } else {
        var note := input[next];
        next := next + 2;
        message := Some(if byteOne / 16 == 9 then PlayCmd(note, byteOne % 16) else StopCmd(note, byteOne % 16));
        assert rest[3..] == input[next..];
      }
    } else if byteOne == 0xFF {
      if next < |input| {
        var second := input[next];
        next := next + 1;
        if second == 0x2F {
          if next < |input| {
            var third := input[next];
            next := next + 1;
            if third == 0x00 {
              message := Some(EndOfTrack);
            } else {
              assert rest[3..] == input[next..];
            }
          }
        } else {
          assert rest[2..] == input[next..];
        }
      }
    } else {
      assert rest[1..] == input[next..];
    }
  }

  lemma RunSnoc(p: Pool, channelMap: seq<seq<int>>, reqmap: map<int, int>, cmds: seq<Command>, c: Command)
    requires |channelMap| == CHANNELS && ChannelOk(c) && forall i :: 0 <= i < |cmds| ==> ChannelOk(cmds[i])
    ensures var prev := Run(p, channelMap, reqmap, cmds);
      var last := Apply(prev.pool, channelMap, reqmap, c);
      Run(p, channelMap, reqmap, cmds + [c]) == Effect(last.pool, prev.events + last.events)
  {
    assert (cmds + [c])[..|cmds|] == cmds;
  }

  /** The effect of one more command, from the state and events reached so far. */
  lemma RunStep(p: Pool, channelMap: seq<seq<int>>, reqmap: map<int, int>, cmds: seq<Command>, c: Command,
                before: Pool, events: seq<DriveEvent>, after: Pool, e: seq<DriveEvent>)
    requires |channelMap| == CHANNELS && ChannelOk(c) && forall i :: 0 <= i < |cmds| ==> ChannelOk(cmds[i])
    requires Effect(before, events) == Run(p, channelMap, reqmap, cmds)
    requires Effect(after, e) == Apply(before, channelMap, reqmap, c)
    ensures forall i :: 0 <= i < |cmds + [c]| ==> ChannelOk((cmds + [c])[i])
    ensures Effect(after, events + e) == Run(p, channelMap, reqmap, cmds + [c])
  {
    RunSnoc(p, channelMap, reqmap, cmds, c);
  }

  /**
   * A stream of Note Offs only (stop_note) keeps every drive either free or
   * held by one key, whatever the keys.
   */
  lemma {:induction false} StopsKeepPartition(p: Pool, n: nat, channelMap: seq<seq<int>>, reqmap: map<int, int>, cmds: seq<Command>)
    requires |channelMap| == CHANNELS && Partitioned(p, n)
    requires forall i :: 0 <= i < |cmds| ==> ChannelOk(cmds[i]) && !cmds[i].PlayCmd?
    ensures Partitioned(Run(p, channelMap, reqmap, cmds).pool, n)
  {
    if cmds != [] {
      StopsKeepPartition(p, n, channelMap, reqmap, cmds[..|cmds| - 1]);
      var prev := Run(p, channelMap, reqmap, cmds[..|cmds| - 1]);
      var c := cmds[|cmds| - 1];
      if c.StopCmd? {
        StopNoteKeepsPartition(prev.pool, n, Key(c.note, c.channel));
      }
    }
  }


  /**
   * Every Note On of `cmds` meets, in the state the earlier commands leave,
   * a free list on which its requests all succeed or the first one fails.
   */
  ghost predicate AllocationsClean(p: Pool, channelMap: seq<seq<int>>, reqmap: map<int, int>, cmds: seq<Command>)
    requires |channelMap| == CHANNELS && forall i :: 0 <= i < |cmds| ==> ChannelOk(cmds[i])
  {
    forall i :: 0 <= i < |cmds| && cmds[i].PlayCmd? && ChannelOk(cmds[i]) ==>
      AllOrNothing(Run(p, channelMap, reqmap, cmds[..i]).pool.available,
                   channelMap[cmds[i].channel], Requests(reqmap, cmds[i].channel))
  }

  /**
   * Any stream of Note Ons and Note Offs keeps every drive either free or
   * held by one key, as long as no note is only partly allocated.
   */
  lemma {:induction false} RunKeepsPartition(p: Pool, n: nat, channelMap: seq<seq<int>>, reqmap: map<int, int>, cmds: seq<Command>)
    requires |channelMap| == CHANNELS && Partitioned(p, n)
    requires forall i :: 0 <= i < |cmds| ==> ChannelOk(cmds[i])
    requires AllocationsClean(p, channelMap, reqmap, cmds)
    ensures Partitioned(Run(p, channelMap, reqmap, cmds).pool, n)
  {
    if cmds != [] {
      var init := cmds[..|cmds| - 1];
      forall i | 0 <= i < |init| && init[i].PlayCmd?
        ensures AllOrNothing(Run(p, channelMap, reqmap, init[..i]).pool.available,
                             channelMap[init[i].channel], Requests(reqmap, init[i].channel))
      {
        assert init[..i] == cmds[..i] && init[i] == cmds[i];
      }
      RunKeepsPartition(p, n, channelMap, reqmap, init);
      var prev := Run(p, channelMap, reqmap, init);
      var c := cmds[|cmds| - 1];
      match c
      case PlayCmd(note, channel) =>
        assert cmds[..|cmds| - 1] == init;
        PlayNoteKeepsPartition(prev.pool, n, channelMap[channel], Requests(reqmap, channel), Key(note, channel));
      case StopCmd(note, channel) =>
        StopNoteKeepsPartition(prev.pool, n, Key(note, channel));
      case EndOfTrack =>
    }
  }

  /**
   * With one drive per note on every channel, the default, any stream of
   * Note Ons and Note Offs keeps every drive either free or held by one key.
   */
  lemma {:induction false} OneDrivePerNoteKeepsPartition(p: Pool, n: nat, channelMap: seq<seq<int>>,
                                                         reqmap: map<int, int>, cmds: seq<Command>)
    requires |channelMap| == CHANNELS && Partitioned(p, n)
    requires forall i :: 0 <= i < |cmds| ==> ChannelOk(cmds[i])
    requires forall c :: 0 <= c < CHANNELS ==> Requests(reqmap, c) <= 1
    ensures Partitioned(Run(p, channelMap, reqmap, cmds).pool, n)
  {
    if cmds != [] {
      OneDrivePerNoteKeepsPartition(p, n, channelMap, reqmap, cmds[..|cmds| - 1]);
      var prev := Run(p, channelMap, reqmap, cmds[..|cmds| - 1]);
      match cmds[|cmds| - 1]
      case PlayCmd(note, channel) =>
        SingleRequestKeepsPartition(prev.pool, n, channelMap[channel], Requests(reqmap, channel), Key(note, channel));
      case StopCmd(note, channel) =>
        StopNoteKeepsPartition(prev.pool, n, Key(note, channel));
      case EndOfTrack =>
    }
  }
}
