/** The handshake and the frame registry of `unity_launcher.py`:
    `check_unity_readiness`, `parametrize` and `prepare_frames`. */
module UnityLauncher {
  import opened Bytes
  import opened Layout
  import opened Wrappers
  import opened HyperParams
  import opened Shm
  import opened Registry

  /** Values of the hyper-parameter state word at `HP_OFF`. */
  const UNSET: u32 := 0
  const PENDING: u32 := 1
  const ACKNOWLEDGED: u32 := 2

  /** The sleeps between polls, in milliseconds. */
  const READY_POLL_MS := 10
  const RESEND_MS := 100

  /** One send: the payload behind the state word, then the state word set to pending. */
  function Send(blob: seq<byte>): (t: seq<Event>)
  {
    [Wrote(HP_OFF + WORD, blob), Wrote(HP_OFF, LeU32(PENDING))]
  }

  /** The retry rounds of `parametrize`: for each value read that is not the
      acknowledgement, that read followed by a resend. */
  function Rounds(blob: seq<byte>, vs: seq<u32>): (t: seq<Event>)
    ensures |t| == 3 * |vs|
  {
    if vs == [] then []
    else Rounds(blob, vs[..|vs| - 1]) + [Saw(HP_OFF, vs[|vs| - 1])] + Send(blob)
  }

  /** Every store in `t` is a payload store of `blob` or a store of the
      pending state that comes right after a payload store. */
  ghost predicate SendsOnly(t: seq<Event>, blob: seq<byte>)
  {
    forall i :: 0 <= i < |t| && t[i].Wrote? ==>
      t[i] == Wrote(HP_OFF + WORD, blob) ||
      (t[i] == Wrote(HP_OFF, LeU32(PENDING)) && 0 < i && t[i - 1] == Wrote(HP_OFF + WORD, blob))
  }

  /** Whatever the peer answers, `parametrize` stores nothing but whole sends,
      each writing the payload before the state word. */
  lemma {:induction false} RoundsSendOnly(blob: seq<byte>, vs: seq<u32>)
    ensures SendsOnly(Send(blob) + Rounds(blob, vs), blob)
  {
    if vs != [] {
      var front := vs[..|vs| - 1];
      RoundsSendOnly(blob, front);
      var t0 := Send(blob) + Rounds(blob, front);
      var t := Send(blob) + Rounds(blob, vs);
      assert t == t0 + [Saw(HP_OFF, vs[|vs| - 1])] + Send(blob);
      forall i | 0 <= i < |t| && t[i].Wrote?
        ensures t[i] == Wrote(HP_OFF + WORD, blob) ||
          (t[i] == Wrote(HP_OFF, LeU32(PENDING)) && 0 < i && t[i - 1] == Wrote(HP_OFF + WORD, blob))
      {
        if i < |t0| {
          assert t[i] == t0[i];
          if 0 < i {
            assert t[i - 1] == t0[i - 1];
          }
        }
      }
    }
  }

  /** The controller never stores the unset or the acknowledged state itself. */
  lemma SendsNeverAcknowledge(t: seq<Event>, blob: seq<byte>, i: nat)
    requires SendsOnly(t, blob) && |blob| == HP_BYTES && i < |t| && t[i].Wrote? && t[i].offset == HP_OFF
    ensures t[i].data == LeU32(PENDING)
    ensures t[i].data != LeU32(UNSET) && t[i].data != LeU32(ACKNOWLEDGED)
  {
    assert t[i] == Wrote(HP_OFF + WORD, blob) ||
      (t[i] == Wrote(HP_OFF, LeU32(PENDING)) && 0 < i && t[i - 1] == Wrote(HP_OFF + WORD, blob));
    if t[i].data == LeU32(UNSET) {
      LeU32Injective(PENDING, UNSET);
    }
    if t[i].data == LeU32(ACKNOWLEDGED) {
      LeU32Injective(PENDING, ACKNOWLEDGED);
    }
  }

  lemma RoundsSnoc(blob: seq<byte>, vs: seq<u32>, v: u32)
    ensures Rounds(blob, vs + [v]) == Rounds(blob, vs) + [Saw(HP_OFF, v)] + Send(blob)
  {
    assert (vs + [v])[..|vs|] == vs;
  }

  /** The loop of `check_unity_readiness`. */
  method AwaitReady(shm: Segment, timeout: int, ghost before: seq<byte>) returns (ready: bool)
    requires Spinning(shm, HP_OFF, UNSET, shm.trace, shm.polls, before)
    requires timeout > 0 || Eventually(shm.peer, shm.polls, UNSET)
    modifies shm`polls, shm`trace, shm`clock, shm.bytes
    ensures SpinStopped(shm, HP_OFF, UNSET, old(shm.trace), old(shm.polls), before)
    ensures ready <==> shm.peer(shm.polls - 1) == UNSET
    ensures shm.clock == old(shm.clock) + 10 * (shm.polls - old(shm.polls) - 1)
    ensures !ready ==> timeout > 0 && shm.clock - old(shm.clock) >= timeout
    ensures !ready ==> shm.clock - old(shm.clock) - READY_POLL_MS < timeout
    ensures ready && timeout > 0 ==> shm.polls == old(shm.polls) + 1 || shm.clock - old(shm.clock) - READY_POLL_MS < timeout
  {
    var start := shm.clock;
    var deadline := start + timeout;
    ghost var p0 := shm.polls;
    ghost var t := shm.trace;
    ghost var k := p0;
    if timeout <= 0 {
      k :| p0 <= k && shm.peer(k) == UNSET;
    }
    while true
      invariant Spinning(shm, HP_OFF, UNSET, t, p0, before)
      invariant shm.clock == start + 10 * (shm.polls - p0)
      invariant timeout > 0 ==> shm.polls == p0 || shm.clock - READY_POLL_MS < deadline
      invariant timeout <= 0 ==> shm.polls <= k
      decreases if timeout > 0 then deadline - shm.clock else k - shm.polls
    {
      var v := PollFor(shm, HP_OFF, UNSET, t, p0, before);
      if v == UNSET {
        return true;
      }
      if timeout > 0 && shm.clock >= deadline {
        return false;
      }
      shm.Sleep(READY_POLL_MS);
    }
  }

  /** `check_unity_readiness(shm, timeout)`: poll the state word until the peer
      shows 0 (ready) or, when `timeout > 0`, until `timeout` ms have passed,
      sleeping `READY_POLL_MS` (10 ms) between reads. */
  method CheckUnityReadiness(shm: Segment, timeout: int) returns (ready: bool)
    requires shm.Valid()
    requires timeout > 0 || Eventually(shm.peer, shm.polls, UNSET)
    modifies shm`polls, shm`trace, shm`clock, shm.bytes
    ensures shm.polls > old(shm.polls)
    ensures shm.trace == old(shm.trace) + Polled(HP_OFF, Values(shm.peer, old(shm.polls), shm.polls))
    ensures forall j :: old(shm.polls) <= j < shm.polls - 1 ==> shm.peer(j) != UNSET
    ensures ready <==> shm.peer(shm.polls - 1) == UNSET
    ensures ready ==> U32At(shm.bytes[..], HP_OFF) == UNSET
    ensures shm.clock == old(shm.clock) + 10 * (shm.polls - old(shm.polls) - 1)
    ensures !ready ==> timeout > 0 && shm.clock - old(shm.clock) >= timeout
    ensures !ready ==> shm.clock - old(shm.clock) - READY_POLL_MS < timeout
    ensures ready && timeout > 0 ==> shm.polls == old(shm.polls) + 1 || shm.clock - old(shm.clock) - READY_POLL_MS < timeout
    ensures shm.bytes[..] == Splice(old(shm.bytes[..]), HP_OFF, LeU32(shm.peer(shm.polls - 1)))
  {
    ghost var before := shm.bytes[..];
    ready := AwaitReady(shm, timeout, before);
    if ready {
      U32AtSplice(before, HP_OFF, UNSET);
    }
  }

  /** The hyper-parameter block as the controller leaves it: the state word,
      then the payload. */
  function Block(state: u32, blob: seq<byte>): (b: seq<byte>)
    ensures |b| == WORD + |blob|
  {
    LeU32(state) + blob
  }

  /** What the peer reads from the hyper-parameter block after the controller
      left `Block(state, blob)` there: the state word, then the payload. */
  lemma BlockAt(s: seq<byte>, state: u32, blob: seq<byte>)
    requires |s| == SHM_BYTES && |blob| == HP_BYTES
    ensures U32At(Splice(s, HP_OFF, Block(state, blob)), HP_OFF) == state
    ensures Splice(s, HP_OFF, Block(state, blob))[HP_OFF + WORD .. HP_OFF + WORD + HP_BYTES] == blob
  {
    var r := Splice(s, HP_OFF, Block(state, blob));
    assert r[HP_OFF .. HP_OFF + WORD] == LeU32(state);
    DecodeLeU32(state);
  }

  /** One send of `parametrize`: `shm[HP_OFF + 4 : HP_OFF + 4 + HP_BYTES] = hp_blob`,
      then `shm[HP_OFF : HP_OFF + 4] = struct.pack("<I", 1)`. */
  method SendParams(shm: Segment, blob: seq<byte>)
    requires shm.Valid() && |blob| == HP_BYTES
    modifies shm`trace, shm.bytes
    ensures shm.trace == old(shm.trace) + Send(blob)
    ensures shm.bytes[..] == Splice(old(shm.bytes[..]), HP_OFF, Block(PENDING, blob))
  {
    ghost var before := shm.bytes[..];
    shm.Store(HP_OFF + WORD, blob);
    shm.Store(HP_OFF, LeU32(PENDING));
    SpliceAdjacent(before, HP_OFF, LeU32(PENDING), blob);
  }

  /** The state `parametrize`'s loop keeps while it waits: since the loop was
      entered at the `p0`-th read, with trace `t` and bytes `before`, every value
      read was not the acknowledgement and was followed by a resend, and the
      block holds the payload behind the pending state. */
  ghost predicate Awaiting(shm: Segment, blob: seq<byte>, t: seq<Event>, p0: nat, before: seq<byte>)
    reads shm`polls, shm`trace, shm.bytes
  {
    && shm.Valid() && |blob| == HP_BYTES && |before| == SHM_BYTES
    && p0 <= shm.polls
    && (forall j :: p0 <= j < shm.polls ==> shm.peer(j) != ACKNOWLEDGED)
    && shm.trace == t + Rounds(blob, Values(shm.peer, p0, shm.polls))
    && shm.bytes[..] == Splice(before, HP_OFF, Block(PENDING, blob))
  }

  /** The state right after a read of the state word in `parametrize`'s loop:
      since the `p0`-th read every value but the last was not the
      acknowledgement and was followed by a resend, the last read is in the
      trace, and the block holds the payload behind the value read. */
  ghost predicate Answered(shm: Segment, blob: seq<byte>, t: seq<Event>, p0: nat, before: seq<byte>)
    reads shm`polls, shm`trace, shm.bytes
  {
    && shm.Valid() && |blob| == HP_BYTES && |before| == SHM_BYTES
    && p0 < shm.polls
    && (forall j :: p0 <= j < shm.polls - 1 ==> shm.peer(j) != ACKNOWLEDGED)
    && shm.trace == t + Rounds(blob, Values(shm.peer, p0, shm.polls - 1)) + [Saw(HP_OFF, shm.peer(shm.polls - 1))]
    && shm.bytes[..] == Splice(before, HP_OFF, Block(shm.peer(shm.polls - 1), blob))
  }

  /** The state `parametrize` ends in when the peer acknowledges. */
  ghost predicate Acked(shm: Segment, blob: seq<byte>, t: seq<Event>, p0: nat, before: seq<byte>)
    reads shm`polls, shm`trace, shm.bytes
  {
    Answered(shm, blob, t, p0, before) && shm.peer(shm.polls - 1) == ACKNOWLEDGED
  }

  /** `struct.unpack_from("<I", shm, HP_OFF)`: the peer's next value of the
      state word overwrites the pending state. */
  method ReadState(shm: Segment, blob: seq<byte>, ghost t: seq<Event>, ghost p0: nat, ghost before: seq<byte>)
    returns (v: u32)
    requires Awaiting(shm, blob, t, p0, before)
    modifies shm`polls, shm`trace, shm.bytes
    ensures shm.polls == old(shm.polls) + 1 && v == shm.peer(old(shm.polls))
    ensures Answered(shm, blob, t, p0, before)
  {
    ValuesSnoc(shm.peer, p0, shm.polls);
    v := shm.Poll(HP_OFF);
    SpliceOverPrefix(before, HP_OFF, LeU32(PENDING), blob, LeU32(v));
  }

  /** The resend after a read that was not the acknowledgement. */
  method Resend(shm: Segment, blob: seq<byte>, ghost t: seq<Event>, ghost p0: nat, ghost before: seq<byte>)
    requires Answered(shm, blob, t, p0, before) && shm.peer(shm.polls - 1) != ACKNOWLEDGED
    modifies shm`trace, shm.bytes
    ensures Awaiting(shm, blob, t, p0, before)
  {
    ResendRounds(shm.peer, blob, t, p0, shm.polls, shm.trace);
    SpliceTwice(before, HP_OFF, Block(shm.peer(shm.polls - 1), blob), Block(PENDING, blob));
    SendParams(shm, blob);
  }

  /** A read that was not the acknowledgement, followed by a resend, is one
      more retry round. */
  lemma ResendRounds(peer: nat -> u32, blob: seq<byte>, t: seq<Event>, p0: nat, n: nat, trace: seq<Event>)
    requires p0 < n
    requires forall j :: p0 <= j < n - 1 ==> peer(j) != ACKNOWLEDGED
    requires peer(n - 1) != ACKNOWLEDGED
    requires trace == t + Rounds(blob, Values(peer, p0, n - 1)) + [Saw(HP_OFF, peer(n - 1))]
    ensures forall j :: p0 <= j < n ==> peer(j) != ACKNOWLEDGED
    ensures trace + Send(blob) == t + Rounds(blob, Values(peer, p0, n))
  {
    ValuesSnoc(peer, p0, n - 1);
    RoundsSnoc(blob, Values(peer, p0, n - 1), peer(n - 1));
  }

  /** One pass of `parametrize`'s loop, up to its timeout test: read the state
      word and, unless it shows the acknowledgement, resend and sleep. */
  method Round(shm: Segment, blob: seq<byte>, ghost t: seq<Event>, ghost p0: nat, ghost before: seq<byte>)
    returns (v: u32)
    requires Awaiting(shm, blob, t, p0, before)
    modifies shm`polls, shm`trace, shm`clock, shm.bytes
    ensures shm.polls == old(shm.polls) + 1 && v == shm.peer(old(shm.polls))
    ensures v != ACKNOWLEDGED ==> Awaiting(shm, blob, t, p0, before) && shm.clock == old(shm.clock) + RESEND_MS
    ensures v == ACKNOWLEDGED ==> Acked(shm, blob, t, p0, before) && shm.clock == old(shm.clock)
  {
    v := ReadState(shm, blob, t, p0, before);
    if v != ACKNOWLEDGED {
      Resend(shm, blob, t, p0, before);
      shm.Sleep(RESEND_MS);
    }
  }

  /** The retry loop of `parametrize`, entered right after the first send. */
  method AwaitAck(shm: Segment, blob: seq<byte>, timeout: Option<int>, ghost before: seq<byte>)
    returns (acked: bool)
    requires Awaiting(shm, blob, shm.trace, shm.polls, before)
    requires timeout.Some? || Eventually(shm.peer, shm.polls, ACKNOWLEDGED)
    modifies shm`polls, shm`trace, shm`clock, shm.bytes
    ensures acked ==>
      && Acked(shm, blob, old(shm.trace), old(shm.polls), before)
      && shm.clock == old(shm.clock) + 100 * (shm.polls - 1 - old(shm.polls))
      && (timeout.Some? ==> shm.clock == old(shm.clock) || shm.clock - old(shm.clock) < timeout.value)
    ensures !acked ==>
      && Awaiting(shm, blob, old(shm.trace), old(shm.polls), before)
      && shm.polls > old(shm.polls)
      && shm.clock == old(shm.clock) + 100 * (shm.polls - old(shm.polls))
      && timeout.Some? && shm.clock - old(shm.clock) >= timeout.value
      && (shm.clock - old(shm.clock) == RESEND_MS || shm.clock - old(shm.clock) - RESEND_MS < timeout.value)
  {
    ghost var t := shm.trace;
    var t0 := shm.clock;
    ghost var p0 := shm.polls;
    ghost var k := p0;
    if timeout.None? {
      k :| p0 <= k && shm.peer(k) == ACKNOWLEDGED;
    }
    while true
      invariant Awaiting(shm, blob, t, p0, before)
      invariant shm.clock == t0 + 100 * (shm.polls - p0)
      invariant timeout.Some? ==> shm.polls == p0 || shm.clock - t0 < timeout.value
      invariant timeout.None? ==> shm.polls <= k
      decreases if timeout.Some? then timeout.value - (shm.clock - t0) else k - shm.polls
    {
      var v := Round(shm, blob, t, p0, before);
      if v == ACKNOWLEDGED {
        return true;
      }
      if timeout.Some? && shm.clock - t0 >= timeout.value {
        return false;
      }
    }
  }

  /** `parametrize(shm, HP, timeout)`: send the payload and the pending state,
      then until the peer shows the acknowledgement resend after every other
      value read, giving up once `timeout` ms have passed (never, for `None`).
      Only the hyper-parameter block changes. */
  method Parametrize(shm: Segment, hp: Params, timeout: Option<int>) returns (acked: bool)
    requires shm.Valid()
    requires timeout.Some? || Eventually(shm.peer, shm.polls, ACKNOWLEDGED)
    modifies shm`polls, shm`trace, shm`clock, shm.bytes
    ensures shm.polls > old(shm.polls)
    ensures forall j :: old(shm.polls) <= j < shm.polls - 1 ==> shm.peer(j) != ACKNOWLEDGED
    ensures acked <==> shm.peer(shm.polls - 1) == ACKNOWLEDGED
    ensures var resent := if acked then shm.polls - 1 else shm.polls;
      && shm.trace == old(shm.trace) + Send(Pack(hp)) + Rounds(Pack(hp), Values(shm.peer, old(shm.polls), resent))
           + (if acked then [Saw(HP_OFF, ACKNOWLEDGED)] else [])
      && shm.clock == old(shm.clock) + 100 * (resent - old(shm.polls))
    ensures !acked ==> timeout.Some? && shm.clock - old(shm.clock) >= timeout.value
    ensures !acked ==> shm.clock - old(shm.clock) == RESEND_MS || shm.clock - old(shm.clock) - RESEND_MS < timeout.value
    ensures acked && timeout.Some? ==> shm.clock == old(shm.clock) || shm.clock - old(shm.clock) < timeout.value
    ensures shm.bytes[..] == Splice(old(shm.bytes[..]), HP_OFF, Block(if acked then ACKNOWLEDGED else PENDING, Pack(hp)))
  {
    var blob := Pack(hp);
    ghost var before := shm.bytes[..];
    SendParams(shm, blob);
    acked := AwaitAck(shm, blob, timeout, before);
  }

  /** The body of `prepare_frames`'s loop for camera `camIdx`, whose block
      starts at `off`: unpack its header and bind the view its pixels give. */
  method BindCamera(s: seq<byte>, camIdx: nat, off: nat) returns (r: Result<FrameView, Fault>)
    requires off == CamOffset(camIdx)
    ensures r == Camera(s, camIdx)
  {
    if off + C_HDR > |s| {
      return Err(HeaderPastEnd(camIdx));
    }
    var w := U32At(s, off + WORD);
    var h := U32At(s, off + 2 * WORD);
    var chan := U32At(s, off + 3 * WORD);
    var pixOff := off + C_HDR;
    var pixBytes := w as nat * h as nat * chan as nat;
    var view := FrameView(pixOff, w, h, chan);
    LengthIsProduct(view);
    if pixOff + pixBytes > |s| {
      return Err(ViewPastEnd(camIdx));
    }
    return Ok(view);
  }

  /** The labels `label_iter` still holds after `k` cameras took one. */
  function Remaining(flags: seq<u32>, k: nat): seq<string>
  {
    var roles := EnabledRoles(ORDER, flags);
    if k <= |roles| then roles[k..] else []
  }

  /** `next(label_iter, f"cam{cam_idx}")` */
  method NextLabel(labelIter: seq<string>, camIdx: nat, ghost flags: seq<u32>) returns (camLabel: string, rest: seq<string>)
    requires labelIter == Remaining(flags, camIdx)
    ensures camLabel == CameraLabel(flags, camIdx) && rest == Remaining(flags, camIdx + 1)
  {
    if labelIter != [] {
      camLabel, rest := labelIter[0], labelIter[1..];
    } else {
      camLabel, rest := "cam" + Decimal(camIdx), [];
    }
  }

  /** The loop of `prepare_frames` over the `n_cam` cameras the header declares. */
  method BindAll(s: seq<byte>, active: seq<u32>) returns (r: Result<map<string, FrameView>, Fault>)
    requires |s| >= G_HDR
    ensures r == Bind(s, active, CameraCount(s))
  {
    var nCam := U32At(s, WORD);
    var labelIter := EnabledRoles(ORDER, active);
    var frames: map<string, FrameView> := map[];
    var off: nat := CAM_OFF;
    var camIdx: nat := 0;
    while camIdx < nCam
      invariant camIdx <= nCam && off == CamOffset(camIdx)
      invariant labelIter == Remaining(active, camIdx)
      invariant Bind(s, active, camIdx) == Ok(frames)
    {
      var camLabel;
      camLabel, labelIter := NextLabel(labelIter, camIdx, active);
      var bound := BindCamera(s, camIdx, off);
      if bound.Err? {
        BindErrSticks(s, active, camIdx + 1, nCam);
        return Err(bound.error);
      }
      frames := frames[camLabel := bound.value];
      off := off + BLOCK_STRIDE;
      camIdx := camIdx + 1;
    }
    return Ok(frames);
  }

  /** `prepare_frames(shm, HP)`: bind a view to every camera the header
      declares, labelled by the enabled roles in order, then `cam{i}`, and
      return the views with the camera flags. */
  method PrepareFrames(shm: Segment, hp: Params) returns (r: Result<Frames, Fault>)
    requires shm.Valid()
    ensures r == Prepare(shm.bytes[..], CameraFlags(hp))
  {
    var active := CameraFlags(hp);
    var bound := BindAll(shm.bytes[..], active);
    if bound.Err? {
      return Err(bound.error);
    }
    return Ok(Frames(bound.value, active));
  }
}
