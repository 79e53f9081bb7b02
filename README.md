# diskreaderror — a Dafny model of the floppy-drive music core

diskreaderror plays MIDI music on floppy disk drives. Each drive's step pin is
pulsed at the frequency of a note, and the head changes direction every 120
steps. This project models the core of the system and proves properties of
the model. The core has four parts:

- **BitBash** (`bitbash.dfy`, from `bitbash.c`). One busy-polling loop serves
  a fixed table of five drive records. On each pass it adds the ticks elapsed
  since the previous pass to every active record's accumulator. A record whose
  accumulator reaches its wavelength emits one step pulse and toggles its
  level; after 120 steps the record also writes and flips its direction.
  - The record table is an `array` updated in place.
  - One pass of the loop is a method proved equal to the function `Pass`.
  - The pulse timing is proved about `RunTicks`: a pulse every `wavelength`
    one-tick passes, and the first pulse comes right after `play_fdd`.
- **WaveLoop** (`wave_loop.dfy`, from `lib.c`). Each drive has its own loop.
  An iteration waits for the next duration of a waveform table, writes the
  step and direction pins, toggles the level and counts the step. The table
  of eight records is an `array`, and one turn of the loop is a method proved
  equal to the function `Step`.
- **Drive allocation and dispatch** (`pool.dfy`, `dispatch.dfy`,
  `passive.dfy`, `fddc.dfy`, from class `FDDC` of `FDDC.py`).
  - The `Fddc` class holds the free list, the in-use table keyed by
    (note, channel), the per-channel drive maps, the per-channel drive counts
    and the `playing` flag.
  - Its methods (`GetAvailableFdd`, `PlayNote`, `StopNote`, `Play`, …) are
    proved to update those fields as the value-level functions of `DrivePool`
    and `MidiDispatch` say.
  - Those functions carry the allocator's guarantees. Drives are taken in
    free-list order and only from the channel's map. For notes whose
    requests all succeed or whose first request fails, which always holds
    with the default of one drive per note, nothing is lost or duplicated
    and every drive is either free or held by exactly one key (see
    "## Left out" for a note that gets only some of its drives). Stopping a
    note returns its drives. The byte stream dispatches
    Note On / Note Off / End-of-Track correctly.
  - `TickGroups` models the grouping and sorting done by `passive_play` and
    `getKey`.
- **LocalFuncs** (`localfuncs.dfy`, from `localfuncs.py`). These are the
  codecs:
  - the Standard MIDI Files variable-length quantity (`get_variable_length`,
    `to_variable_length`);
  - big-endian fixed-width integers (`pop_n`, `to_bytes`);
  - the XOR-mask pair `to_twos_comp` / `from_twos_comp`.

  The readers consume the caller's list from the front, so that list is a
  `ByteQueue` object. Running out of bytes is a `None` result.

Pin writes (`digitalWrite`) and waits (`delay`) are recorded as events. The
drive objects' `note_on` / `note_off` calls are recorded as `DriveEvent`s.
The hardware timer reading becomes the `elapsed` parameter of a pass.

## Model

| member | source | states |
|---|---|---|
| BitBash.Advance | bitbash.c:64-78 | An inactive record is untouched and writes nothing. A record fires exactly when its accumulator plus the elapsed ticks reaches its wavelength. Firing resets the accumulator to 0, writes the step pin with the old level and toggles the level. The 120th step also writes the direction pin with the old direction, flips it and resets the count. At most two writes happen per record and pass. Pins, wavelength and the active flag never change. Sanity is preserved, and an active record ends strictly below its wavelength. |
| BitBash.Pass | bitbash.c:62-80 | A pass advances every slot independently, writes at most two pins per slot, and changes nothing when no slot is active. |
| BitBash.PassInChannelOrder | bitbash.c:64 | The writes of a pass over a table split at any slot are those of the lower slots followed by those of the upper slots. |
| BitBash.PassKeepsSane | bitbash.c:64-78 | Every record stays sane after a pass: step count in 0..119 and levels in {0, -1}. |
| BitBash.RunTicks | bitbash.c:62-80 | n one-tick passes emit at most n pulses and keep the wavelength and the active flag. |
| BitBash.RunTicksAdditive | bitbash.c:62-80 | Running a passes and then b passes is running a+b passes, and the pulse counts add up. |
| BitBash.PulseSpacing | bitbash.c:66-68 | Right after a pulse, with one tick per pass, the next pulse comes exactly `wavelength` passes later and none comes before it. |
| BitBash.PulseCount | bitbash.c:66-68 | k·wavelength one-tick passes after a pulse emit exactly k pulses. |
| BitBash.PrimedPulses | bitbash.c:91-95 | After `play_fdd`, 1 + k·w one-tick passes emit k+1 pulses, so the first pulse comes immediately. |
| BitBash.SetupFddmon | bitbash.c:29-42 | Both pins are driven low, and the record's count, accumulator, direction, active flag and level are zeroed. The pins are bound. No other slot changes. |
| BitBash.PlayFdd | bitbash.c:91-95 | The record becomes active with the new wavelength, and it fires on the next pass for any non-negative elapsed time. No other slot changes. |
| BitBash.StopFdd | bitbash.c:97-99 | Only the active flag is cleared, and the loop then leaves the record alone. |
| BitBash.PlayFddLoopPass | bitbash.c:62-80 | The in-place field-by-field loop over the table leaves the table and emits the writes exactly as `Pass` specifies. |
| BitBash.AdvanceRecord | bitbash.c:65-77 | The field-by-field body for one record computes `Advance`. |
| WaveLoop.FddArgs.constructor | lib.c:6-10 | The argument record holds the token, the pins, the table size and the table itself. |
| WaveLoop.Step | lib.c:47-59 | Each iteration waits for the current table entry, writes the step pin with the old level and writes the direction pin. It then advances the position modulo the table size and toggles the level. The 120th step flips the direction, resets the count and writes the new direction. Sanity is preserved. |
| WaveLoop.Iterate | lib.c:46-60 | Any number of iterations keeps the position inside the table and preserves sanity. |
| WaveLoop.CyclesTable | lib.c:40-49 | From the start, iteration k waits for `wave[k % wavesize]` and the level alternates 0, -1, 0, …. |
| WaveLoop.CountsSteps | lib.c:54-58 | After k iterations the step count is (start + k) mod 120. The direction has flipped once per 120 steps counted, and the active flag is unchanged. |
| WaveLoop.SetupFddmon | lib.c:23-31 | Both pins are driven low and the record is zeroed. No other slot changes. |
| WaveLoop.PlayFdd | lib.c:64-70 | A fresh argument record carries the token, the pins, the size and the very same table (not a copy). |
| WaveLoop.StopFdd | lib.c:74-76 | Only the active flag of the one record is cleared. |
| WaveLoop.LocalPlayStart | lib.c:40-45 | The record is marked active, and the loop starts at position 0 with level 0. |
| WaveLoop.LocalPlayIteration | lib.c:46-59 | When the active flag is not 1 the loop ends and nothing changes. Otherwise the in-place body does exactly one `Step`. Other records are untouched. |
| DrivePool.Range | FDDC.py:158-161 | The initial free list is 0..n-1 in order. |
| DrivePool.Requests | FDDC.py:213-216 | A channel in `reqmap` asks for its stored number of drives, and any other channel asks for one. |
| DrivePool.FirstAvailableFacts | FDDC.py:188-196 | The scan finds the earliest free drive that the channel's map allows, and finds none exactly when no free drive is allowed. |
| DrivePool.Take | FDDC.py:185-202 | When no free drive is allowed, the result is -1 and the free list is unchanged. Otherwise the result is the drive at the earliest allowed position. |
| DrivePool.RemoveAt | FDDC.py:200 | `pop(k)` keeps the entries before k in place and moves every entry after k down by one, so the list is one shorter. |
| DrivePool.RemoveAtSplit | FDDC.py:200 | `pop(k)` loses only the entry at k. |
| DrivePool.TakeRemoves | FDDC.py:198-202 | A successful take moves one drive out of the free list. What is left is the list without that entry, the rest in their old order, and what is left plus the drive is what there was. |
| DrivePool.TakeAllowed | FDDC.py:189-192 | A drive taken is always in the channel's map. |
| DrivePool.TakeFound | FDDC.py:198-202 | On a free list without -1, the result is -1 exactly when no allowed drive is free. |
| DrivePool.AllocateN | FDDC.py:220-226 | A note making `req` requests gets exactly max(req, 0) results, -1 included. |
| DrivePool.AllocateNConserves | FDDC.py:220-226 | When every request succeeds, the drives left plus the drives taken are the drives there were. |
| DrivePool.AllocateNAllowed | FDDC.py:220-226 | Every drive a note gets, other than -1, is allowed on its channel. |
| DrivePool.AllocateNExhausted | FDDC.py:220-226 | Once a request fails, no allowed free drive remains. |
| DrivePool.AllocateNSticky | FDDC.py:220-226 | Once a request returns -1, every later request of the same note returns -1 too. |
| DrivePool.AllocateNPrefix | FDDC.py:220-226 | The first drive of a note is the one the first request took. |
| DrivePool.PlayNoteSpec | FDDC.py:209-230 | A key already playing changes nothing. Every other key keeps its drives, and no key but the note's is added. A newly stored key holds max(req, 0) results, and one `note_on` is issued per stored result, in order. A note that is not stored issues no event. |
| DrivePool.StopNoteSpec | FDDC.py:232-240 | The key is forgotten and every other key keeps its drives. The old free list stays in front, the key's drives are appended in stored order, and one `note_off` is issued per drive. An unknown key changes nothing. |
| DrivePool.PlayNoteOutcome | FDDC.py:209-230 | If the first request fails, nothing changes. If every request succeeds, the key holds `req` allowed drives taken out of the free list, one `note_on` is issued per drive in order, and no other key changes. |
| DrivePool.PlayThenStop | FDDC.py:209-240 | Playing a note and then stopping it restores the in-use table, and the free list holds the same drives as before. |
| DrivePool.PartialAllocation | FDDC.py:220-230 | For any pool without -1 and any note whose first request finds a drive while a later one does not: the stored list starts with a drive and ends in -1, every result is stored and started, and stopping the note appends the whole stored list, -1 included, to the free list. |
| DrivePool.PartialAllocationExample | FDDC.py:220-230 | For example, with one free drive and two drives per note, the note holds [0, -1], starts both, and stopping it leaves [0, -1] free. |
| DrivePool.InitialPartition | FDDC.py:153-161 | After construction, drives 0..n-1 are each free exactly once and none is held. |
| DrivePool.PlayNoteKeepsPartition | FDDC.py:209-230 | `play_note` keeps every drive either free or held by exactly one key, once. |
| DrivePool.SingleRequestKeepsPartition | FDDC.py:209-230 | With at most one drive per note, `play_note` always keeps the partition. |
| DrivePool.PutKeepsPartition | FDDC.py:230 | Storing drives taken from the free list under a new key keeps the partition. |
| DrivePool.StopNoteKeepsPartition | FDDC.py:232-240 | `stop_note` keeps the partition. |
| DrivePool.SplitFacts | FDDC.py:200 | Splitting a duplicate-free list leaves two duplicate-free, disjoint parts that cover it. |
| DrivePool.HeldAfterPut | FDDC.py:230 | After a new key is stored, a drive is held exactly when it was held before or belongs to the new key. |
| MidiDispatch.Dispatch | FDDC.py:259-272 | Every command dispatched names a valid channel (0..15). |
| MidiDispatch.DispatchEndsPlay | FDDC.py:270-272 | End-of-Track can only be the last command: nothing is read after it. |
| MidiDispatch.DispatchEncodeAll | FDDC.py:259-272 | Any Note On / Note Off messages followed by FF 2F 00 dispatch to exactly those commands and then End-of-Track. Each message has its own velocity byte, and anything may follow. |
| MidiDispatch.DispatchCommand | FDDC.py:262-269 | A three-byte note message dispatches to its command, whatever follows. |
| MidiDispatch.DispatchSkips | FDDC.py:270-272 | FF followed by a byte other than 2F swallows that byte. FF 2F followed by a byte other than 00 swallows all three and play goes on. An unrecognised byte is skipped alone. |
| MidiDispatch.ReadMessage | FDDC.py:261-271 | One message's reads advance the position. They yield the command that `Dispatch` lists at that point and leave the rest of the stream to dispatch on its own. |
| MidiDispatch.Apply | FDDC.py:262-272 | One message's call changes only the key it names: every other key keeps its drives and stays in use, and End-of-Track changes nothing. |
| MidiDispatch.Run | FDDC.py:259-272 | Over a whole command list, a key that no command names keeps exactly its drives, and a key comes into use only through a command that names it. |
| MidiDispatch.RunStep | FDDC.py:259-272 | The state and events after one more command are those of the whole command list run in order. |
| MidiDispatch.StopsKeepPartition | FDDC.py:232-240 | Any stream of Note Offs keeps the partition of drives. |
| MidiDispatch.RunKeepsPartition | FDDC.py:209-240 | Any stream of Note Ons and Note Offs keeps the partition, as long as every Note On either gets all its drives or fails on its first request. |
| MidiDispatch.OneDrivePerNoteKeepsPartition | FDDC.py:209-240 | With one drive per note on every channel (the default), any stream of Note Ons and Note Offs keeps the partition. |
| DriveAllocator.Fddc.constructor | FDDC.py:146-161 | One free drive per pin pair, numbered in order, and none in use. Every channel is mapped to drives 0..7, with one drive per note. The partition holds. |
| DriveAllocator.Fddc.ResetMap | FDDC.py:172-173 | Every channel's map becomes empty, and nothing else changes. |
| DriveAllocator.Fddc.ResetReqmap | FDDC.py:174-175 | Every channel asks for one drive per note again, and nothing else changes. |
| DriveAllocator.Fddc.SetMap | FDDC.py:177-178 | Only the one channel's map is replaced. |
| DriveAllocator.Fddc.SetFddsPerNote | FDDC.py:179-180 | The channel now asks for `count` drives per note, and nothing else changes. |
| DriveAllocator.Fddc.ReleaseFdd | FDDC.py:182-183 | The drive is appended to the end of the free list. |
| DriveAllocator.Fddc.GetAvailableFdd | FDDC.py:185-202 | The nested scan returns and removes the earliest free drive the map allows, or returns -1 and leaves the list alone (see `TakeRemoves`, `TakeAllowed`). |
| DriveAllocator.Fddc.PlayNote | FDDC.py:209-230 | The fields and the `note_on` calls are exactly as `PlayNoteSpec` says, and so `PlayNoteOutcome` and `PlayNoteKeepsPartition` hold for the object. |
| DriveAllocator.Fddc.StopNote | FDDC.py:232-240 | The drives are released in stored order and stopped, and the key is forgotten. An unknown key is ignored. See `PlayThenStop` and `StopNoteKeepsPartition`. |
| DriveAllocator.Fddc.Perform | FDDC.py:262-272 | A command updates the object as `Apply` says, and only End-of-Track clears `playing`. |
| DriveAllocator.Fddc.Play | FDDC.py:252-274 | Reading the whole stream leaves the object and the events as running `Dispatch(input)` in order. `playing` ends false exactly when End-of-Track was read. |
| DriveAllocator.DispatchStep | FDDC.py:259-272 | The commands read so far stay a prefix of `Dispatch(input)`, and End-of-Track ends the list. |
| TickGroups.GetKey | FDDC.py:311-317 | The key is 1 exactly for a Note Off and 2 exactly for a Note On. Every other event gets 3. |
| TickGroups.WithKey | FDDC.py:311-317 | Filtering by key keeps only events of that key. |
| TickGroups.SortByKey | FDDC.py:287 | Sorted events are in ascending order of `getKey` (Note Off, Note On, then the rest). |
| TickGroups.SortByKeyPermutes | FDDC.py:287 | The sort keeps every event, as a multiset. |
| TickGroups.SortByKeyStable | FDDC.py:287 | Events with equal keys keep their file order. |
| TickGroups.WithKeyNone | FDDC.py:311-317 | No event has a key other than 1, 2 or 3. |
| TickGroups.KeptAtAbsent | FDDC.py:280-284 | A tick without events has no kept events. |
| TickGroups.TicksOfMembers | FDDC.py:280-282 | A tick has a group exactly when some event is at it. |
| TickGroups.FirstIndex | FDDC.py:280-282 | The position of a tick's first event: no earlier event is at that tick. |
| TickGroups.FirstIndexSnoc | FDDC.py:280-282 | A later event does not move the first position of a tick already seen, and a new tick is first seen at the new event. |
| TickGroups.CollectStep | FDDC.py:280-284 | One more event gives its tick a list if it has none, and the event joins that list if it is a Note On, Note Off or Set Tempo. |
| TickGroups.OrderStep | FDDC.py:281-282 | One more event lists a new tick last, after every tick seen before, and leaves the list alone for a known tick. |
| TickGroups.GroupStep | FDDC.py:280-284 | Both steps together keep the dictionary and its first-appearance order. |
| TickGroups.SortByTick | FDDC.py:288 | Sorting the groups keeps every group. |
| TickGroups.InsertByTickAscending | FDDC.py:288 | Inserting a group with a new tick keeps the list strictly ascending. |
| TickGroups.SortByTickAscending | FDDC.py:288 | Groups with distinct ticks are sorted into strictly ascending tick order. |
| TickGroups.SortByTickMembers | FDDC.py:288 | Sorting neither adds nor drops groups. |
| TickGroups.GroupByTick | FDDC.py:278-284 | Every tick of the file is mapped to its kept events in file order, and the ticks are listed once each in first-appearance order. |
| TickGroups.SortEachGroup | FDDC.py:285-287 | Each tick, in dictionary order, gets one group with its events sorted by `getKey`. |
| TickGroups.SortedGroups | FDDC.py:285-288 | Sorting those groups by tick gives one group per tick that has any event, in strictly ascending order, each holding its kept events sorted by `getKey`. |
| TickGroups.GroupsOfTicks | FDDC.py:285-287 | The groups cover exactly the ticks of the file, and each holds that tick's sorted kept events. |
| TickGroups.PassivePlay | FDDC.py:277-288 | There is one group per tick that has any event, and the groups are in strictly ascending tick order. Each group holds that tick's Note Off, Note On and Set Tempo events, stably sorted by `getKey`. |
| LocalFuncs.ByteQueue.constructor | localfuncs.py:38-44 | The queue holds the given bytes. |
| LocalFuncs.BigEndian | localfuncs.py:40-44 | A big-endian value of k bytes is below 256^k. |
| LocalFuncs.BigEndianZeros | localfuncs.py:82 | Leading zero padding does not change a big-endian value. |
| LocalFuncs.HighBytesValue | localfuncs.py:77-80 | The bytes `to_bytes` builds read back as the number. |
| LocalFuncs.HighBytesLength | localfuncs.py:77-80 | A number below 256^k needs at most k bytes. |
| LocalFuncs.ToBytesSpec | localfuncs.py:73-83 | `to_bytes(n, l)` is at least one byte and at least l bytes long. For n < 0 it is zero padding followed by the single byte n mod 256. |
| LocalFuncs.ToBytesReadsBack | localfuncs.py:73-83 | For n ≥ 0, `to_bytes(n, l)` reads back as n and is max(l, minimal length) bytes long. |
| LocalFuncs.ToBytesOfZero | localfuncs.py:73-83 | `to_bytes(0, l)` is max(l, 1) zero bytes. |
| LocalFuncs.ToBytesPopNRoundTrip | localfuncs.py:38-83 | For 0 ≤ n < 256^l, the first l bytes of `to_bytes(n, l)` read back as n. |
| LocalFuncs.PopN | localfuncs.py:38-44 | With enough bytes, the first `nbytes` bytes are removed and returned as a big-endian value. Otherwise the queue is emptied and the read fails. |
| LocalFuncs.ToBytes | localfuncs.py:73-83 | The loop with truncating division computes exactly the padded big-endian bytes (the lowest byte only for n < 0). |
| LocalFuncs.ToBytesThenPopN | localfuncs.py:38-83 | For 0 ≤ n < 256^l (and n < 2^53), `pop_n(list(to_bytes(n, l)), l)` gives n back. |
| LocalFuncs.FirstFinal | localfuncs.py:49-54 | It finds the first byte without the continuation bit, and finds none exactly when every byte has that bit. |
| LocalFuncs.FirstFinalAt | localfuncs.py:49-54 | The first byte with the continuation bit clear is where a quantity ends. |
| LocalFuncs.DecodeVlq | localfuncs.py:46-55 | Decoding takes at least one byte and no more than there are. It fails exactly when every byte has the continuation bit. |
| LocalFuncs.Vlq | localfuncs.py:57-71 | Every byte of the encoding but the last carries the continuation bit and the last does not. Numbers below 0x80 are one byte. |
| LocalFuncs.VlqMinimal | localfuncs.py:57-71 | For n > 0 the encoding never starts with an empty group 0x80. |
| LocalFuncs.VlqRoundTrip | localfuncs.py:46-71 | Decoding the encoding of n, followed by anything, gives n and consumes exactly the encoding. |
| LocalFuncs.VlqValue | localfuncs.py:57-71 | The encoding read 7 bits at a time is n. |
| LocalFuncs.GetVariableLength | localfuncs.py:46-55 | It pops through the first final byte and returns the decoded quantity, or empties the queue and fails when no byte ends it. |
| LocalFuncs.ToVariableLength | localfuncs.py:57-71 | The loop and the reverse produce exactly the minimal encoding for n ≥ 0, and the lowest group only for n < 0. |
| LocalFuncs.ToVariableLengthThenDecode | localfuncs.py:46-71 | For n ≥ 0, `get_variable_length` of `list(to_variable_length(n))` followed by any bytes gives n. |
| LocalFuncs.XorInvolution | localfuncs.py:28-36 | XOR with the same mask twice gives the number back. |
| LocalFuncs.IntXorInvolution | localfuncs.py:28-36 | Python's XOR with a non-negative mask is an involution on negative numbers too. |
| LocalFuncs.TwosCompRoundTrip | localfuncs.py:22-36 | `from_twos_comp(to_twos_comp(n) + 1) == n` for every n and width. |
| LocalFuncs.ToTwosComp | localfuncs.py:30-36 | The counted loop builds the mask and XORs n with it. |
| LocalFuncs.FromTwosComp | localfuncs.py:22-28 | The counted loop builds the same mask and XORs n-1 with it. |
| LocalFuncs.Mask | localfuncs.py:24-27 | `bits` rounds build `bits` copies of the bit pair 01: three times the mask plus one is 2^(2·bits). |
| LocalFuncs.MaskAsWritten | localfuncs.py:24-27 | As written, the 8-bit mask is 0x5555, so `to_twos_comp(0)` is 0x5555. |
| LocalFuncs.XorOnes | localfuncs.py:24-27 | With a mask of `bits` one bits, XOR is 2^bits - 1 - n. |
| LocalFuncs.IntendedTwosComp | localfuncs.py:22-36 | With the intended mask, `to_twos_comp(n) + 1` is 2^bits - n, which represents -n. `from_twos_comp(x)` is then 2^bits - x. |

## Left out

- Threads: `pthread_create`, `pthread_detach`, `pthread_join`/`wait_for_end`, `play_fdd_loop`, and the concurrent access to `fddmon` from the loop and the control calls. The model runs one pass or one iteration at a time.
- The `RUNNING` flag and `kill_loop`. Only single passes of the loop are modelled, not its termination.
- The `/dev/mem` system timer. It becomes the `elapsed` parameter of a pass.
- wiringPi: `wiringPiSetup`, `pinMode`, `digitalWrite` and `delay` are external hardware calls. Writes and waits are recorded as events, and pin modes are not recorded.
- `printf`/`fprintf` diagnostics, and the failure paths of `open`/`mmap`.
- 32-bit `int` overflow of the accumulator, the step count and `long long` time differences. Values are unbounded integers.
- Out-of-range tokens. The C code indexes `fddmon[5]` / `fddmon[8]` without checks, which is undefined behaviour, so the model requires a valid slot.
- `lambdahash`: a floating-point wavelength table. A `note_on` event records the note, not the wavelength. The `KeyError` raised for a note outside 12..138 is not modelled.
- The `FDD` class, `CFDDC`, `purge_all` and `high_threshold`: these are foreign calls into the C library. Drive start and stop are `DriveEvent`s.
- `PassiveController`, `ActiveController`, `MIDIController.py`, `parse_args`, `main`, `test` and `active_play`. They are not part of this model.
- The class-level sharing of `fdd_channel_map` and `reqmap` between instances. The model keeps them as per-object fields.
- DriveAllocator.Fddc.SetMap: the body at FDDC.py:178 is not indented under its `def`, which Python rejects. The model follows the evident meaning.
- `controller.start()`, `KeyboardInterrupt` and a `read()` that blocks on an exhausted stream. The model reads a finite byte sequence, and if it ends without End-of-Track, `playing` stays true.
- TickGroups.PassivePlay: `midilike.get_all_events()`, `ppqn`, building the `PassiveController` and the final `self.play(...)` are left out. The result is the sorted list of groups.
- TickGroups.SortByTick: `sorted_ticks.sort()` compares (tick, events) tuples in place. It is modelled as a sort on values by tick alone, which agrees because ticks are distinct.
- LocalFuncs.ToBytes: `int(n / 256)` divides in floating point. The model requires n < 2^53, where that division is exact.
- LocalFuncs.PopN: `int(...)` of a list item is taken to be a byte value, and the queue is a list of them.
- LocalFuncs.ToBytesThenPopN, LocalFuncs.ToVariableLengthThenDecode: `to_bytes` and `to_variable_length` return `bytes`, which has no `pop`, so `pop_n` and `get_variable_length` cannot read their results directly. The round trips read `list(...)` of the result.
- The terminal helpers `get_terminal_size` and `read_character`: these are I/O.
- DrivePool.AllocateNConserves, DrivePool.PlayThenStop, DrivePool.PlayNoteKeepsPartition and MidiDispatch.RunKeepsPartition cover only notes whose requests all succeed or whose first request fails. When a later request fails, -1 enters the in-use table and later the free list, as `PartialAllocation` shows. With one drive per note this never happens (`OneDrivePerNoteKeepsPartition`).
- Drive index -1: after a failed later request, `self.fdds[fdd_index]` at FDDC.py:228 and FDDC.py:237 is Python's negative index, so it starts and stops the last drive (n-1), whether that drive is free or held by another key. The model records `NoteOn(-1, note)` / `NoteOff(-1)` without resolving them to drive n-1, so after a partial allocation `Partitioned` does not describe which drives sound.
- WaveLoop.Step, WaveLoop.LocalPlayIteration: they require 0 < `wavesize` ≤ the table length. A `wavesize` of 0 divides by zero at lib.c:49, and a larger `wavesize` reads past the table at lib.c:47; both are undefined behaviour in C and are not modelled.

## Findings

| source | as written | input that shows it | evidently intended | confidence | as-written member | corrected member |
|---|---|---|---|---|---|---|
| localfuncs.py:22-36 | The mask is built with `f <<= 2; f += 1`, giving 0x5555 for 8 bits | `to_twos_comp(0)` returns 0x5555 instead of 0xFF | `f <<= 1`, a mask of `bits` ones, so that `to_twos_comp(n) + 1 == 2^bits - n` | not executed | LocalFuncs.MaskAsWritten | LocalFuncs.IntendedTwosComp |
