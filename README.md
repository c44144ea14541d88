# City of Light: the Python side of the shared-memory bridge

This project models the controller half of the bridge between the Python
package `PyCol` and the City of Light simulator. The two processes share one
fixed-layout memory segment:

- a global header (update index, camera count, player pose), then 16
  collision flags;
- an action slot of five words, stamped with a sequence number;
- a hyper-parameter block: a state word (0 unset/ready, 1 pending,
  2 acknowledged), then the 84-byte `<fII5f9I4f` payload;
- a log region;
- a function call slot: an id, then three `f32` arguments;
- up to four camera blocks, each a `<IIII` header followed by its pixels.

The model covers `populate`, `shm_size_bytes`, `check_unity_readiness`,
`parametrize` and `prepare_frames` from `unity_launcher.py`, and the class
`COL` of `col.py` with its launch sequence, its calls through the function
slot, its action writes with their sequence counter, the wait for the next
simulation step, and the reads of the global header.

How the model stands in for the other process and for time:

- The segment is a `Shm.Segment`: a byte array of the layout's size that
  the controller slice-assigns.
- The simulator is an oracle `peer`. The n-th time the controller polls a
  `u32` field, it reads `peer(n)`, and that value is what the segment then
  holds at that field.
- Time is a millisecond `clock` that only the controller's sleeps advance.
- A ghost `trace` records every store and every poll, in order. This lets
  the contracts state write ordering: the payload before the state word, the
  arguments before the function id, exactly one action record per step.

Busy waits with no timeout terminate only if the peer eventually answers.
Their methods therefore require exactly the answers the code waits for, and
are proved to stop at the first one:
- one `0` in the call slot (`Eventually`);
- two, for `move_player`, whose wait is followed by `rebuild_chunks`;
- one change of the update index (`ChangesAfter`);
- `n` successive changes for `run_N_blank_timesteps(n)` (`Ticks`).

Modules:

- `Bytes`: little-endian words, with their round trips and slice
  assignment (`Splice`).
- `Layout`: the segment constants and the camera block arithmetic.
- `HyperParams`: the configuration, `populate` and the payload.
- `Shm`: the segment, the oracle and the trace.
- `Registry`: the specification of `prepare_frames`.
- `UnityLauncher`: the handshake and the frame binding loop.
- `Session`: the class `COL`.

## Model

| member | source | states |
|---|---|---|
| Bytes.LeU32 | PyCol/unity_launcher.py:306 | `struct.pack("<I", x)` is four bytes; `DecodeLeU32` and `LeU32Decode` make it the inverse of `DecodeU32` |
| Bytes.DecodeU32 | PyCol/unity_launcher.py:311 | `struct.unpack("<I", b)`, least significant byte first; specified by `DecodeLeU32` and `LeU32Decode` |
| Bytes.U32At | PyCol/unity_launcher.py:280 | `struct.unpack_from("<I", shm, off)`: the word at bytes `off .. off+4`; specified by `U32AtSplice` |
| Bytes.Splice | PyCol/col.py:192 | a slice assignment keeps the buffer's length; `SpliceRead` and `SpliceKeeps` state what it holds inside and before the region |
| Bytes.EncodeWords | PyCol/unity_launcher.py:290-302 | packing `n` words gives `4n` bytes; its inverse is `DecodeWords` |
| Bytes.DecodeWords | PyCol/col.py:297-299 | unpacking `4n` bytes gives `n` words; its inverse is `EncodeWords` |
| Bytes.I32OfBits | PyCol/col.py:245 | reading a word as `i` and packing it again gives the same bits |
| Bytes.DecodeLeU32 | PyCol/unity_launcher.py:306 | unpacking the four bytes `struct.pack("<I", x)` writes gives `x` back |
| Bytes.LeU32Decode | PyCol/unity_launcher.py:311 | any four bytes are the packing of the word they unpack to |
| Bytes.LeU32Injective | PyCol/unity_launcher.py:306 | different state words are written as different bytes |
| Bytes.I32Bits | PyCol/col.py:245 | an `i` field holds `x` modulo 2^32, and its top bit is set exactly for negative `x` |
| Bytes.I32RoundTrip | PyCol/col.py:245 | unpacking an `i` field gives the signed command back |
| Bytes.DecodeEncodeWords | PyCol/unity_launcher.py:290-302 | unpacking a run of packed words gives the words back |
| Bytes.EncodeDecodeWords | PyCol/unity_launcher.py:290-302 | every byte string of whole words is the packing of its unpacking |
| Bytes.EncodeWordsAt | PyCol/unity_launcher.py:291-302 | packed word `k` occupies bytes `4k .. 4k+4` |
| Bytes.DecodeWordsAt | PyCol/col.py:297-299 | unpacked word `k` is the word at bytes `4k .. 4k+4` |
| Bytes.U32AtSplice | PyCol/unity_launcher.py:280 | a word read back where it was just written is that word |
| Bytes.SpliceTwice | PyCol/unity_launcher.py:316-317 | rewriting the same region leaves only the last write |
| Bytes.SpliceCovers | PyCol/unity_launcher.py:316-317 | a longer write from the same offset hides an earlier one |
| Bytes.SpliceAdjacent | PyCol/unity_launcher.py:305-306 | the payload write and the state write together write the whole block |
| Bytes.SpliceOverPrefix | PyCol/col.py:199 | overwriting the id keeps the arguments behind it |
| Bytes.SpliceCommute | PyCol/col.py:258-259 | a write of the update index and a write of the action slot commute |
| Bytes.SplicePair | PyCol/col.py:192-195 | a write of two parts puts each part in its place |
| Bytes.SpliceKeeps | PyCol/col.py:259 | a write leaves the bytes before it unchanged |
| Layout.LayoutAssumptionsHold | PyCol/unity_launcher.py:239-242 | the header, action, argument and call-id sizes are 8, 5, 3 and 1 words, the collision flags follow the 32-byte header, the header, action slot, hyper-parameter block, log region, call slot and arguments start in that order, each of them except the log region ending before the next begins (the log region gives up its last word, because its share also pays for the block's state word), the arguments sit directly behind the function id, the camera blocks start at the sum of the region sizes, the payload is 21 words, the segment is the camera offset plus four strides, and the four role names are distinct and none starts with `c` |
| Layout.ShmSizeBytes | PyCol/unity_launcher.py:239-242 | the size sum is the segment size every other member assumes |
| Layout.CamOffset | PyCol/unity_launcher.py:333-347 | no camera block starts before the first one |
| Layout.CamOffsetClosed | PyCol/unity_launcher.py:333-347 | after `i` passes the loop's offset is `CAM_OFF + i * BLOCK_STRIDE` |
| Layout.CameraBlocksFit | PyCol/unity_launcher.py:239-242 | each of the `MAX_CAMERAS` blocks lies inside the segment, and the block after the last would start exactly at its end |
| Layout.PixelRegionsDisjoint | PyCol/unity_launcher.py:336-343 | a view within the maximum pixel size ends before any later block's header and pixels |
| HyperParams.Populate | PyCol/unity_launcher.py:212-236 | each field comes from its configuration key, both image dimensions are `IMG_SIZE`, and the camera flags are the four camera keys |
| HyperParams.CameraFlags | PyCol/unity_launcher.py:330 | there is one flag per role |
| HyperParams.Words | PyCol/unity_launcher.py:290-302 | the record is 21 fields in format order |
| HyperParams.FromWords | PyCol/unity_launcher.py:290-302 | reading 21 words as a record and listing its fields gives the same words |
| HyperParams.Pack | PyCol/unity_launcher.py:290-302 | the payload is exactly `HP_BYTES` long |
| HyperParams.Unpack | PyCol/unity_launcher.py:290 | the peer's `<fII5f9I4f` unpack succeeds exactly on 84 bytes |
| HyperParams.UnpackPack | PyCol/unity_launcher.py:290-302 | the peer decodes the record the controller packed |
| HyperParams.PackUnpack | PyCol/unity_launcher.py:290-302 | every 84-byte payload is the packing of the record it decodes to |
| HyperParams.PackFieldAt | PyCol/unity_launcher.py:290-302 | field `k` is the word at byte `4k` of the payload |
| HyperParams.PopulatedBlob | PyCol/unity_launcher.py:223-228 | the peer finds the four camera flags in fields 9 to 12 and `IMG_SIZE` in fields 15 and 16 |
| Shm.Segment.constructor | PyCol/unity_launcher.py:244-271 | a fresh segment of the layout's size: nothing polled, no time spent, empty trace |
| Shm.Segment.Store | PyCol/col.py:192 | a slice assignment changes exactly that region and is logged |
| Shm.Segment.Poll | PyCol/unity_launcher.py:280 | a read of a peer-written word returns the peer's next value, which the segment then holds |
| Shm.Segment.Sleep | PyCol/unity_launcher.py:284 | a sleep advances the clock by its length |
| Shm.StoppedAtFirstReads | PyCol/col.py:199-200 | a spin that stopped at the first `v` saw no `v` before its last read |
| Shm.PollFor | PyCol/col.py:199 | one read of a spin-until-`v` loop keeps its state until it reads `v` |
| Registry.LengthIsProduct | PyCol/unity_launcher.py:337-344 | a view of shape `(h, w, chan)` covers `w * h * chan` bytes |
| Registry.EnabledRoles | PyCol/unity_launcher.py:331 | `label_iter` yields only roles from `order`, and no more labels than there are roles |
| Registry.EnabledRolesAt | PyCol/unity_launcher.py:331 | the k-th label is the k-th role whose flag is set |
| Registry.EnabledRolesCount | PyCol/unity_launcher.py:331 | `label_iter` yields as many labels as there are set flags |
| Registry.EnabledRolesDistinct | PyCol/unity_launcher.py:331 | the labels it yields are distinct |
| Registry.Decimal | PyCol/unity_launcher.py:339 | `str(n)` is one or more digits, and two or more exactly from 10 on |
| Registry.DecimalInjective | PyCol/unity_launcher.py:339 | different camera indices print differently |
| Registry.CameraLabel | PyCol/unity_launcher.py:339 | camera `i`'s label is the `i`-th enabled role, or `cam{i}` once the roles run out; `CameraLabelsDistinct` states it never repeats |
| Registry.CameraLabelsDistinct | PyCol/unity_launcher.py:339-345 | no two cameras get the same label, so no view in `frames` replaces another |
| Registry.CameraCount | PyCol/unity_launcher.py:327 | the camera count `n_cam` is the second word of the global header |
| Registry.View | PyCol/unity_launcher.py:335-337 | a camera's view starts right behind its header |
| Registry.HeaderFitsIff | PyCol/unity_launcher.py:335 | in a segment of the layout's size a camera header can be unpacked exactly for the first `MAX_CAMERAS` cameras |
| Registry.ViewFitsWithinMaxima | PyCol/unity_launcher.py:342-343 | a view within the maximum resolution can always be bound, and it ends before every later block |
| Registry.Camera | PyCol/unity_launcher.py:335-345 | one pass of the loop: the header's view, or the fault of a header or pixels running past the end |
| Registry.Collect | PyCol/unity_launcher.py:334-347 | the loop after `n` passes: `frames` so far, or the first fault; specified by the `Collect` lemmas below |
| Registry.Bind | PyCol/unity_launcher.py:334-347 | the loop over the segment's contents; specified by the `Bind` lemmas below |
| Registry.Prepare | PyCol/unity_launcher.py:325-348 | `prepare_frames` as a function: the bound views with the camera flags, or the fault; `UnityLauncher.PrepareFrames` computes it |
| Registry.CollectErrSticks | PyCol/unity_launcher.py:334-347 | once a pass has raised, the loop's result is that fault |
| Registry.CollectOkIff | PyCol/unity_launcher.py:334-347 | the loop completes exactly when every pass succeeds |
| Registry.CollectErr | PyCol/unity_launcher.py:334-347 | a fault is the fault of the first pass that failed |
| Registry.CollectKeys | PyCol/unity_launcher.py:334-347 | `frames` has exactly one key per pass: its label |
| Registry.CollectAt | PyCol/unity_launcher.py:334-347 | under pass `i`'s label `frames` holds the view pass `i` bound |
| Registry.BindErrSticks | PyCol/unity_launcher.py:334-347 | once a camera has raised, later cameras do not change the outcome |
| Registry.BindOkIff | PyCol/unity_launcher.py:334-347 | binding succeeds exactly when every declared camera's header and pixels lie inside the segment |
| Registry.BindErr | PyCol/unity_launcher.py:334-347 | a fault names the first camera that does not fit, and says whether its header or its pixels run past the end |
| Registry.BindKeys | PyCol/unity_launcher.py:334-347 | the keys of `frames` are exactly the labels of the declared cameras |
| Registry.BindAt | PyCol/unity_launcher.py:334-347 | under camera `i`'s label `frames` holds the view camera `i`'s header declares |
| UnityLauncher.Send | PyCol/unity_launcher.py:305-306 | one send: the payload, then the pending state |
| UnityLauncher.Rounds | PyCol/unity_launcher.py:310-318 | each unacknowledged read adds itself and one send of two stores |
| UnityLauncher.RoundsSendOnly | PyCol/unity_launcher.py:305-318 | whatever the peer answers, `parametrize` stores only whole sends, the payload before the pending state each time |
| UnityLauncher.SendsNeverAcknowledge | PyCol/unity_launcher.py:306 | the controller's only store to the state word is the pending state, never unset or acknowledged |
| UnityLauncher.AwaitReady | PyCol/unity_launcher.py:278-284 | the readiness loop stops at the first 0 it reads, or at the first read whose time has reached the deadline, which is less than 10 ms past it; 10 ms pass between reads; with a timeout, a 0 after the first read ends the loop only when the read before it came before the deadline |
| UnityLauncher.CheckUnityReadiness | PyCol/unity_launcher.py:274-284 | ready exactly when the last read showed 0 (and the state word holds 0); no earlier read showed 0; not ready only after `timeout` ms, and less than 10 ms past it; with a timeout, ready only at the first read or when the read before the last came before the deadline; only reads happen |
| UnityLauncher.Block | PyCol/unity_launcher.py:305-306 | the block as a send leaves it: the state word, then the payload, `4 + HP_BYTES` bytes |
| UnityLauncher.BlockAt | PyCol/unity_launcher.py:305-306 | after a send the peer reads the state word, then the payload, from the block |
| UnityLauncher.SendParams | PyCol/unity_launcher.py:305-306 | one send stores the payload, then the pending state, and the block then holds both |
| UnityLauncher.ReadState | PyCol/unity_launcher.py:311 | a read of the state word shows the peer's next value, which overwrites the pending state |
| UnityLauncher.Resend | PyCol/unity_launcher.py:316-317 | after an unacknowledged read the block again holds the payload behind the pending state, and the trace gains one retry round |
| UnityLauncher.ResendRounds | PyCol/unity_launcher.py:315-317 | an unacknowledged read followed by a send is one more retry round |
| UnityLauncher.Round | PyCol/unity_launcher.py:311-318 | one pass of the loop: acknowledged with no time spent, or resent with 100 ms spent |
| UnityLauncher.AwaitAck | PyCol/unity_launcher.py:309-321 | the retry loop stops at the first acknowledgement, or once `timeout` has passed after at least one resend |
| UnityLauncher.Parametrize | PyCol/unity_launcher.py:286-321 | `True` exactly when the last read was the acknowledgement, and no earlier read was; the trace is one send, then one read and one resend per unacknowledged read; 100 ms per resend; `False` only after the timeout; the controller stores only to the block |
| UnityLauncher.BindCamera | PyCol/unity_launcher.py:335-343 | one pass of `prepare_frames`'s loop binds camera `i`'s declared view, or raises if its header or its pixels run past the end |
| UnityLauncher.NextLabel | PyCol/unity_launcher.py:339 | `next(label_iter, f"cam{i}")` gives camera `i`'s label, and the rest of the iterator |
| UnityLauncher.BindAll | PyCol/unity_launcher.py:327-347 | the loop over the `n_cam` cameras the header declares computes `Bind` |
| UnityLauncher.PrepareFrames | PyCol/unity_launcher.py:325-348 | `prepare_frames` returns the bound views with the four camera flags, or the fault of the first camera that does not fit |
| Session.Issue | PyCol/col.py:191-195 | the stores that post a call: its arguments, if any, then its id |
| Session.SlotHolds | PyCol/col.py:192-195 | after a call is posted the peer finds its id and, behind it, its three arguments |
| Session.ActionRecord | PyCol/col.py:245 | an action record is 20 bytes |
| Session.Actions | PyCol/col.py:245 | the action records a trace stores, in order; `StepActions` and `RunNBlankTimesteps` state what they are |
| Session.ActionRecordDecode | PyCol/col.py:245 | the peer decodes from a record its sequence number and the four signed commands |
| Session.BlankRun | PyCol/col.py:248-250 | a run of `n` blank steps yields `n` records |
| Session.BlankRunStamps | PyCol/col.py:248-250 | record `i` of a blank run is stamped `first + i` and carries four zero commands |
| Session.StepActions | PyCol/col.py:248-250 | one blank step adds its record to the actions stored, and stores nothing elsewhere |
| Session.FirstChange | PyCol/col.py:260-264 | where a tick wait that began at read `p` stops: the first later read whose index differs |
| Session.FirstChangeOf | PyCol/col.py:258-264 | a tick wait that stopped at a change stopped at the first one |
| Session.Ticks | PyCol/col.py:248-250 | the index changes often enough for `n` successive blank steps |
| Session.TicksStep | PyCol/col.py:249-250 | after one step the remaining `n - 1` steps still see their changes |
| Session.AlwaysChangingTicks | PyCol/col.py:248-250 | a peer whose index never stops changing serves any number of steps |
| Session.AfterBlanks | PyCol/col.py:249-250 | the segment after blank steps: the last record in the action slot, the last index read in its word |
| Session.AfterBlanksKeeps | PyCol/col.py:249-250 | blank steps change no byte outside the action slot and the update index word |
| Session.AfterBlanksStep | PyCol/col.py:249-250 | a further blank step overwrites both, so the bytes depend only on the last step |
| Session.BlankBytesSnoc | PyCol/col.py:249-250 | one more step moves the bytes on to the longer chain of stops |
| Session.ChangeChain | PyCol/col.py:248-250 | each successive tick wait stops at the first change after the read where it began |
| Session.ChangeChainPrefix | PyCol/col.py:248-250 | the first stops of a chain are a chain |
| Session.ChangeChainSnoc | PyCol/col.py:248-250 | a chain extended by the next first change is a chain |
| Session.ChangeChainUnique | PyCol/col.py:248-250 | the peer's answers fix the stops: two chains of the same length from the same read are equal |
| Session.BlankState | PyCol/col.py:248-250 | after `i` passes: the changes still owed, the trace, the stored records, the stops and the bytes |
| Session.BlankLoop | PyCol/col.py:248-250 | `BlankState` over the segment's current state |
| Session.BlankStateStep | PyCol/col.py:249-250 | one blank step that stopped at the first change keeps `BlankState` with one more pass |
| Session.PollTick | PyCol/col.py:261 | one read of the update index keeps the tick wait's state until it reads a new index |
| Session.AwaitTick | PyCol/col.py:260-265 | the tick wait stops at the first update index different from `last`, after only reads and no time spent |
| Session.Post | PyCol/col.py:191-195 | posting a call stores its arguments, if any, then its id, and the slot then holds the id behind which the arguments sit |
| Session.SpinIdle | PyCol/col.py:198-200 | the slot wait stops at the first `0` it reads, after one pause between reads |
| Session.PausesTotal | PyCol/col.py:239-240 | `n` pauses of `ms` take `ms * n` milliseconds |
| Session.AwaitIdle | PyCol/col.py:198-200 | a waiting call stops at the first `0` the peer writes back, after only reads, and the slot then holds `0` |
| Session.Call | PyCol/col.py:191-200 | a call through the slot: arguments, then id, then, if waiting, the reads up to the first `0` |
| Session.HandshakeRun | PyCol/col.py:150-163 | what the readiness check and the send did: ready exactly when the check's last read showed `0` and no earlier one did; acknowledged exactly when ready and the last read showed the acknowledgement, with none since the check; the trace is the check's reads, then, once ready, the send and the retry rounds; the clock is 10 ms per check read and 100 ms per resend; not ready only once the check's time reached `waitForUnityMs`, less than 10 ms past it; ready after more than one read only when the read before the last came before that deadline; unacknowledged only once the send's time reached 30 s, and the last resend begun before it unless it was the only one; acknowledged only within the 30 s; the bytes are the block, or the state word the check last read |
| Session.NotReadyRun | PyCol/col.py:150-157 | a readiness check that never read `0` is a handshake that was not ready |
| Session.ReadyRun | PyCol/col.py:150-163 | a readiness check that ended on `0`, followed by `parametrize`, is a ready handshake |
| Session.HandshakeLeaves | PyCol/col.py:150-163 | what the peer finds afterwards: without readiness only reads, none of them `0`, and the state word holds the last read; with it, the payload behind the acknowledgement or the pending state |
| Session.ReadyThenParametrize | PyCol/col.py:150-163 | the readiness check with `waitForUnityMs`, then `parametrize` with the 30 s timeout only once ready, as `HandshakeRun` describes with both deadlines; not ready only after the readiness timeout, unacknowledged only after the 30 s timeout |
| Session.Handshake | PyCol/col.py:150-170 | `launch`'s readiness check, send and binding: `False` exactly when Unity is not ready or does not acknowledge, with ready and acknowledged tied to the reads, and the time to `waitForUnityMs` and the 30 s timeout, as `HandshakeRun` states; otherwise the result is `prepare_frames`'s |
| Session.COL.constructor | PyCol/col.py:80-128 | nothing launched or attached, no parameters or frames yet, and actions numbered from 1 |
| Session.COL.Launch | PyCol/col.py:131-170 | `launch` populates the parameters, starts the process when an executable is given, attaches the segment, and returns `True` exactly when Unity is ready and acknowledges (the reads, trace, clock against `waitForUnityMs` and the 30 s timeout, and bytes as `HandshakeRun` states) and every camera binds, recording the views and flags then and only then; a camera that does not fit raises |
| Session.COL.Close | PyCol/col.py:172-183 | `close` detaches the segment and drops the process, and a second call changes nothing |
| Session.COL.MovePlayer | PyCol/col.py:187-201 | call 1 with `(x, y, z)`; when waiting, it waits for `0` and then rebuilds the chunks, requiring only that the peer writes `0` twice |
| Session.COL.MoveGoal | PyCol/col.py:203-214 | call 5 with `(x, y, z)`; when waiting, it reads up to the first `0` |
| Session.COL.RotatePlayer | PyCol/col.py:216-227 | call 4 with `(x, y, z)`; when waiting, it reads up to the first `0` |
| Session.COL.RebuildChunks | PyCol/col.py:229-233 | call 2, without arguments, always waited for |
| Session.COL.ForceCameraRead | PyCol/col.py:235-240 | call 3, always waited for, with a 1 ms pause between reads |
| Session.COL.PromoteChunk | PyCol/col.py:305-325 | call 6 with `(chunk, 0.0, 0.0)`; when waiting, it reads up to the first `0` |
| Session.COL.WriteAction | PyCol/col.py:242-246 | one record stamped with the counter is stored in the action slot, and the counter advances by one |
| Session.COL.WriteActionUntilFrame | PyCol/col.py:252-265 | read the update index, store the action, then read until the index changes; the counter advances by one |
| Session.COL.BlankStep | PyCol/col.py:249-250 | one blank step adds exactly its zero record to the actions stored, ends right after the first change of the update index, and leaves the bytes as `AfterBlanks` |
| Session.COL.NextBlankStep | PyCol/col.py:249-250 | one pass of the loop keeps `BlankLoop` with one more step, and the counter moves on by one; the clock is untouched |
| Session.COL.RunNBlankTimesteps | PyCol/col.py:248-250 | `n` steps advance the counter by `n`, and the only stores are `n` zero records stamped consecutively from the old counter; step `i` stops at the first change after the previous step (`ChangeChain`), so the reads end right after the `n`-th; no byte changes for `n = 0`, and otherwise only the action slot (the last record) and the update index word (the last index read) do; it requires only the `n` index changes those steps wait for, and nothing for `n = 0` |
| Session.COL.ExtractXyz | PyCol/col.py:293-300 | the pose is words 2 to 7 of the global header |
| Session.COL.ExtractCollisions | PyCol/col.py:302-303 | the 16 collision flags are the bytes right behind the 32-byte header |

## Left out

- The module `static_flags` is not part of this model. `Layout` fixes representative values for its constants and states in `LayoutAssumptionsHold` the relations between them that the model's proofs rely on: the record sizes, the order of the regions, the call arguments directly behind the function id, and the camera roles.
- The action format `FMT` is taken to be `<Iiiii`, the five-word record the peer reads.
- The size sum in `shm_size_bytes` does not count the hyper-parameter state word. The model places the log region right behind the payload and takes that word from the log region's share.
- Starting and stopping the simulator process (`launch_unity_instance`, the module-level `close`, and the Windows job objects) is outside the segment protocol. `COL` records only whether a process handle is held.
- `prepare_shm` is not modelled: it waits for and maps a file or named mapping. The mapped segment is a parameter of `Session.COL.Launch`.
- `extract_visual_frames` and `depth_rgba8_to_float32` do float arithmetic on image data. They are not modelled.
- Floats are opaque 32-bit patterns. Rounding a Python float to `f32` on `struct.pack` is not modelled. Nor is `float(int(chunk_idx))` in `promote_chunk`: its argument is the resulting bit pattern.
- `print` output and the `KeyboardInterrupt` handler of `promote_chunk` are left out.
- The numpy arrays in `frames` are represented by their offset and shape in the segment (`FrameView`). Aliasing between a view and later writes is not modelled.
- `shm.close()` is not modelled: the views in `frames_shm` still refer to the detached segment.
- The copies of the layout constants that `__init__` stores on the instance are left out; the model uses the `Layout` constants directly.
- `write_action` seeks and writes through the mmap's file position. The model stores at `ACT_OFF` and does not track that position.
- Time is whole milliseconds on one clock that only sleeps advance. The time spent outside sleeps, the difference between `time.time` and `time.monotonic`, and fractional timeouts are not modelled. `time.sleep(0)` is a sleep of 0 ms.
- Loops without a timeout are modelled as terminating: each method requires that the peer gives the values its waits stop at (one `0`, two for `move_player`, one index change, or `n` changes for `run_N_blank_timesteps(n)`). What happens when the peer never answers is not modelled.
- The peer writes only the words the controller polls (the state word, the function id, the update index), each at the moment it is read. Its other writes are not modelled: the pose, camera count, collision flags, camera headers and pixels, which it rewrites every simulation step. The byte-level clauses of `UnityLauncher.Parametrize`, `Session.COL.WriteActionUntilFrame` and the call methods hold only under that restriction. Likewise, `Session.COL.ExtractXyz` and `Session.COL.ExtractCollisions` return the same bytes after any number of steps. What the trace states, namely which stores the controller makes and in what order, does not depend on this restriction.
- Session.COL.WriteAction: requires the counter to be below 2^32. Past that, `struct.pack` raises `struct.error`, and the model does not cover that path. The commands are typed `i32`, so the `struct.error` on an out-of-range or non-integer command is not modelled either.
- Session.COL.WriteActionUntilFrame: requires an attached segment and a counter below 2^32, and takes `i32` commands. The `TypeError` without a segment and the `struct.error` paths are not modelled.
- Session.COL.RunNBlankTimesteps: requires that the counter stays below 2^32 for all `n` steps, for the same reason, and requires an attached segment (see below). Its `n` is a `nat`: `range(n)` runs no step for a negative `n`, which behaves as `n = 0`, and that case is not modelled separately.
- Session.COL.BlankStep: requires an attached segment and a counter below 2^32, as `write_action_until_frame` does.
- Session.COL.MovePlayer: requires an attached segment. Before `launch` or after `close`, `shm` is `None` and the source raises `TypeError`; that path is not modelled. The coordinates are `f32` bit patterns, so the `struct.error` on a non-numeric argument is not modelled.
- Session.COL.MoveGoal: requires an attached segment and takes `f32` coordinates, as `Session.COL.MovePlayer` does.
- Session.COL.RotatePlayer: requires an attached segment and takes `f32` angles, as `Session.COL.MovePlayer` does.
- Session.COL.RebuildChunks: requires an attached segment; the `TypeError` without one is not modelled.
- Session.COL.ForceCameraRead: requires an attached segment; the `TypeError` without one is not modelled.
- Session.COL.PromoteChunk: requires an attached segment and takes the chunk as an `f32` bit pattern. The `TypeError` without a segment, and the errors of `int(chunk_idx)` on a non-numeric index, are not modelled.
- Session.COL.ExtractXyz: requires an attached segment; the `TypeError` without one is not modelled.
- Session.COL.ExtractCollisions: requires an attached segment; the `TypeError` without one is not modelled.
- HyperParams.Populate: takes a typed `Config`. The `KeyError` of `populate` on a missing key is not modelled. Nor is the `struct.error` of `parametrize` (unity_launcher.py:291) on an out-of-range or non-numeric value.
- The peer's side of the protocol is not modelled. That includes resetting the function id to 0 after running a call, and the rule that a call may only be posted while the slot holds 0. Posting a call overwrites the slot whatever it held, as the code does.
- The peer is a free oracle over the polled words: any sequence of values is allowed, including state values other than 0, 1 and 2.
- `prepare_frames` does not check a camera's declared width and height against `MAX_RESOLUTION`, and the model follows the code. The peer is expected to keep width and height within `MAX_RESOLUTION` and the pixel count within `MAX_PIXEL_BYTES`; `Registry.ViewFitsWithinMaxima` states what holds when it does.
- `prepare_frames` unpacks the frame index and pose only to print them. The model reads only the camera count.
- `_next` is not reset by `launch`; the model likewise keeps the counter across launches.
