/** The session object of `col.py`: the launch sequence, the function call
    slot, the action slot with its sequence counter, the tick wait, and the
    reads of the global header. */
module Session {
  import opened Bytes
  import opened Layout
  import opened Wrappers
  import opened HyperParams
  import opened Shm
  import opened Registry
  import opened UnityLauncher

  /** The update index, which the peer bumps once per simulation step, is the
      first word of the global header. */
  const UPDATE_IDX_OFF := 0
  /** The pose (position, then rotation) is words 2 .. 7 of the global header. */
  const POSE_OFF := 2 * WORD

  /** Function ids of the call slot at `FUNC_OFF`; the peer writes `IDLE` back
      when it has run the call. */
  const IDLE: u32 := 0
  const MOVE_PLAYER: u32 := 1
  const REBUILD_CHUNKS: u32 := 2
  const FORCE_CAMERA_READ: u32 := 3
  const ROTATE_PLAYER: u32 := 4
  const MOVE_GOAL: u32 := 5
  const PROMOTE_CHUNK: u32 := 6

  /** The bit pattern of the float `0.0`. */
  const ZERO_F32: f32 := 0

  /** The pause between reads of the call slot in `force_camera_read`
      (`time.sleep(0.001)`); every other busy wait yields with `time.sleep(0)`. */
  const CAMERA_READ_PAUSE_MS := 1

  /** `parametrize`'s default timeout, 30 s, in milliseconds. */
  const PARAMETRIZE_TIMEOUT_MS := 30000

  /** The simulator process `launch_unity_instance` starts. */
  datatype Process = Process(exe: string, logDir: string, batchMode: bool)

  /** `extract_xyz`'s result: position, then rotation, as opaque floats. */
  datatype Pose = Pose(px: f32, py: f32, pz: f32, rx: f32, ry: f32, rz: f32)

  /** The stores that issue call `id`: its `<fff` argument words, if the call
      has any, then the id. */
  function Issue(id: u32, args: seq<f32>): seq<Event>
  {
    (if args == [] then [] else [Wrote(ARGS_OFF, EncodeWords(args))]) + [Wrote(FUNC_OFF, LeU32(id))]
  }

  /** What the peer finds in the call slot when the controller has left
      `LeU32(id) + EncodeWords(args)` at `FUNC_OFF`: the id, and behind it the
      three argument words. */
  lemma SlotHolds(s: seq<byte>, id: u32, args: seq<f32>)
    requires |s| == SHM_BYTES && |args| == 3
    ensures U32At(Splice(s, FUNC_OFF, LeU32(id) + EncodeWords(args)), FUNC_OFF) == id
    ensures DecodeWords(Splice(s, FUNC_OFF, LeU32(id) + EncodeWords(args))[ARGS_OFF .. ARGS_OFF + ARGS_BYTES]) == args
  {
    SplicePair(s, FUNC_OFF, LeU32(id), EncodeWords(args));
    DecodeLeU32(id);
    DecodeEncodeWords(args);
  }

  /** `struct.pack("<Iiiii", stamp, fwd, turn, vert, grav)`: one action record. */
  function ActionRecord(stamp: u32, fwd: i32, turn: i32, vert: i32, grav: i32): (b: seq<byte>)
    ensures |b| == ACT_BYTES
  {
    EncodeWords([stamp, I32Bits(fwd), I32Bits(turn), I32Bits(vert), I32Bits(grav)])
  }

  /** The peer decodes from an action record its sequence number and the four
      signed commands. */
  lemma ActionRecordDecode(stamp: u32, fwd: i32, turn: i32, vert: i32, grav: i32)
    ensures var ws := DecodeWords(ActionRecord(stamp, fwd, turn, vert, grav));
      && |ws| == 5 && ws[0] == stamp
      && I32OfBits(ws[1]) == fwd && I32OfBits(ws[2]) == turn
      && I32OfBits(ws[3]) == vert && I32OfBits(ws[4]) == grav
  {
    DecodeEncodeWords([stamp, I32Bits(fwd), I32Bits(turn), I32Bits(vert), I32Bits(grav)]);
  }

  /** The action records stored in `t`, in order. */
  ghost function Actions(t: seq<Event>): seq<seq<byte>>
  {
    if t == [] then []
    else
      var e := t[|t| - 1];
      Actions(t[..|t| - 1]) + (if e.Wrote? && e.offset == ACT_OFF then [e.data] else [])
  }

  lemma {:induction false} ActionsAppend(a: seq<Event>, b: seq<Event>)
    ensures Actions(a + b) == Actions(a) + Actions(b)
  {
    if b == [] {
      assert a + b == a;
    } else {
      assert (a + b)[..|a + b| - 1] == a + b[..|b| - 1];
      assert (a + b)[|a + b| - 1] == b[|b| - 1];
      ActionsAppend(a, b[..|b| - 1]);
    }
  }

  /** Reads store no action. */
  lemma {:induction false} ActionsPolled(off: nat, vs: seq<u32>)
    ensures Actions(Polled(off, vs)) == []
  {
    if vs != [] {
      var front := vs[..|vs| - 1];
      assert vs == front + [vs[|vs| - 1]];
      PolledSnoc(off, front, vs[|vs| - 1]);
      ActionsPolled(off, front);
      ActionsAppend(Polled(off, front), [Saw(off, vs[|vs| - 1])]);
      assert [Saw(off, vs[|vs| - 1])][..0] == [];
    }
  }

  /** Every store in `t` goes to the action slot. */
  ghost predicate StoresOnlyActions(t: seq<Event>)
  {
    forall i :: 0 <= i < |t| && t[i].Wrote? ==> t[i].offset == ACT_OFF
  }

  /** `n` all-zero action records stamped `first`, `first + 1`, ... */
  function BlankRun(first: nat, n: nat): (rs: seq<seq<byte>>)
    requires first + n <= 0x1_0000_0000
    ensures |rs| == n
  {
    seq(n, i requires 0 <= i < n => ActionRecord(first + i, 0, 0, 0, 0))
  }

  lemma BlankRunSnoc(first: nat, i: nat)
    requires first + i + 1 <= 0x1_0000_0000
    ensures BlankRun(first, i + 1) == BlankRun(first, i) + [ActionRecord(first + i, 0, 0, 0, 0)]
  {
  }

  /** The records of a blank run carry consecutive sequence numbers, with no
      gap and no repeat, and nothing but zeros behind them. */
  lemma BlankRunStamps(first: nat, n: nat, i: nat)
    requires first + n <= 0x1_0000_0000 && i < n
    ensures BlankRun(first, n)[i] == ActionRecord(first + i, 0, 0, 0, 0)
      && DecodeWords(BlankRun(first, n)[i]) == [first + i, 0, 0, 0, 0]
  {
    ActionRecordDecode(first + i, 0, 0, 0, 0);
  }

  /** The segment `s0` after blank steps: the last record, stamped `stamp`, in
      the action slot, the last update index the wait read in its word, and
      every other byte as it was. */
  function AfterBlanks(s0: seq<byte>, stamp: u32, idx: u32): (s: seq<byte>)
    requires |s0| == SHM_BYTES
    ensures |s| == SHM_BYTES
    ensures s[ACT_OFF .. ACT_OFF + ACT_BYTES] == ActionRecord(stamp, 0, 0, 0, 0)
    ensures U32At(s, UPDATE_IDX_OFF) == idx
  {
    var s1 := Splice(s0, ACT_OFF, ActionRecord(stamp, 0, 0, 0, 0));
    SpliceCommute(s0, UPDATE_IDX_OFF, LeU32(idx), ACT_OFF, ActionRecord(stamp, 0, 0, 0, 0));
    U32AtSplice(s0, UPDATE_IDX_OFF, idx);
    Splice(s1, UPDATE_IDX_OFF, LeU32(idx))
  }

  /** Blank steps change no byte outside the action slot and the update index. */
  lemma AfterBlanksKeeps(s0: seq<byte>, stamp: u32, idx: u32)
    requires |s0| == SHM_BYTES
    ensures forall k :: 0 <= k < SHM_BYTES ==>
      (ACT_OFF <= k < ACT_OFF + ACT_BYTES) || (UPDATE_IDX_OFF <= k < UPDATE_IDX_OFF + WORD) || AfterBlanks(s0, stamp, idx)[k] == s0[k]
  {
  }

  /** A further blank step overwrites both words it touches: the segment
      after it depends only on the last step. */
  lemma AfterBlanksStep(s0: seq<byte>, stamp: u32, idx: u32, stamp': u32, idx': u32)
    requires |s0| == SHM_BYTES
    ensures Splice(Splice(AfterBlanks(s0, stamp, idx), ACT_OFF, ActionRecord(stamp', 0, 0, 0, 0)), UPDATE_IDX_OFF, LeU32(idx'))
      == AfterBlanks(s0, stamp', idx')
  {
    var r := ActionRecord(stamp, 0, 0, 0, 0);
    var r' := ActionRecord(stamp', 0, 0, 0, 0);
    var s1 := Splice(s0, ACT_OFF, r);
    SpliceCommute(s1, UPDATE_IDX_OFF, LeU32(idx), ACT_OFF, r');
    SpliceTwice(s0, ACT_OFF, r, r');
    SpliceTwice(Splice(s0, ACT_OFF, r'), UPDATE_IDX_OFF, LeU32(idx), LeU32(idx'));
  }

  /** The segment `s0` after the blank steps, stamped from `first`, that
      stopped at `stops`: unchanged when there were none. */
  function BlankBytes(s0: seq<byte>, first: nat, peer: nat -> u32, stops: seq<nat>): (s: seq<byte>)
    requires |s0| == SHM_BYTES && first + |stops| <= 0x1_0000_0000
    ensures |s| == SHM_BYTES
  {
    if stops == [] then s0 else AfterBlanks(s0, first + |stops| - 1, peer(stops[|stops| - 1]))
  }

  /** One step of `run_N_blank_timesteps` adds its record to the actions
      stored, and no store anywhere else. */
  lemma StepActions(steps: seq<Event>, last: u32, rec: seq<byte>, seen: seq<u32>)
    requires StoresOnlyActions(steps)
    ensures var step := [Saw(UPDATE_IDX_OFF, last), Wrote(ACT_OFF, rec)] + Polled(UPDATE_IDX_OFF, seen);
      && Actions(steps + step) == Actions(steps) + [rec]
      && StoresOnlyActions(steps + step)
  {
    var head := [Saw(UPDATE_IDX_OFF, last), Wrote(ACT_OFF, rec)];
    var step := head + Polled(UPDATE_IDX_OFF, seen);
    ActionsAppend(steps, step);
    ActionsAppend(head, Polled(UPDATE_IDX_OFF, seen));
    ActionsPolled(UPDATE_IDX_OFF, seen);
    assert [Saw(UPDATE_IDX_OFF, last)][..0] == [];
    assert Actions([Saw(UPDATE_IDX_OFF, last)]) == [];
    assert head[..1] == [Saw(UPDATE_IDX_OFF, last)];
    assert Actions(head) == Actions(head[..1]) + [rec];
  }

  /** A wait for the next simulation step that stopped at the first update
      index different from `last`. */
  predicate StoppedAtChange(vs: seq<u32>, last: u32)
  {
    |vs| > 0 && vs[|vs| - 1] != last && forall j :: 0 <= j < |vs| - 1 ==> vs[j] == last
  }

  /** `q` is the first read after the `p`-th whose update index differs from
      the one read at `p`: where a tick wait that began at `p` stops. */
  ghost predicate FirstChange(peer: nat -> u32, p: nat, q: nat)
  {
    p < q && peer(q) != peer(p) && forall j :: p < j < q ==> peer(j) == peer(p)
  }

  /** A tick wait that read `peer(p)` first and then `peer(p + 1 .. q)` stopped at
      the first change after `p`. */
  lemma FirstChangeOf(peer: nat -> u32, p: nat, q: nat)
    requires p < q && StoppedAtChange(Values(peer, p + 1, q + 1), peer(p))
    ensures FirstChange(peer, p, q)
  {
    var vs := Values(peer, p + 1, q + 1);
    assert vs[|vs| - 1] == peer(q);
    forall j | p < j < q
      ensures peer(j) == peer(p)
    {
      assert vs[j - p - 1] == peer(j);
    }
  }

  /** The update index changes often enough for `n` successive calls of
      `write_action_until_frame`, the first of which reads it at the `p`-th
      read: each call reads the index, then reads until it first differs,
      and the next call starts with the read after that. */
  ghost predicate Ticks(peer: nat -> u32, p: nat, n: nat)
    decreases n
  {
    n == 0 ||
    (ChangesAfter(peer, p) && forall q: nat :: FirstChange(peer, p, q) ==> Ticks(peer, q + 1, n - 1))
  }

  /** After one call, the remaining calls still see their changes. */
  lemma TicksStep(peer: nat -> u32, p: nat, q: nat, n: nat)
    requires Ticks(peer, p, n + 1) && FirstChange(peer, p, q)
    ensures Ticks(peer, q + 1, n)
  {
  }

  /** A peer whose update index never stops changing serves any number of calls. */
  lemma {:induction false} AlwaysChangingTicks(peer: nat -> u32, p: nat, n: nat)
    requires forall r :: p <= r ==> ChangesAfter(peer, r)
    ensures Ticks(peer, p, n)
    decreases n
  {
    if n > 0 {
      forall q: nat | FirstChange(peer, p, q)
        ensures Ticks(peer, q + 1, n - 1)
      {
        AlwaysChangingTicks(peer, q + 1, n - 1);
      }
    }
  }

  /** `stops` are where successive tick waits stopped, the first of them
      starting at the `p`-th read and each later one at the read after the
      previous stop. */
  ghost predicate ChangeChain(peer: nat -> u32, p: nat, stops: seq<nat>)
  {
    forall i :: 0 <= i < |stops| ==> FirstChange(peer, if i == 0 then p else stops[i - 1] + 1, stops[i])
  }

  /** The read after the last stop: where the next call would start. */
  function Resume(p: nat, stops: seq<nat>): nat
  {
    if stops == [] then p else stops[|stops| - 1] + 1
  }

  /** The first `n` stops of a chain are a chain. */
  lemma ChangeChainPrefix(peer: nat -> u32, p: nat, stops: seq<nat>, n: nat)
    requires ChangeChain(peer, p, stops) && n <= |stops|
    ensures ChangeChain(peer, p, stops[..n])
  {
    forall i | 0 <= i < n
      ensures FirstChange(peer, if i == 0 then p else stops[..n][i - 1] + 1, stops[..n][i])
    {
      assert stops[..n][i] == stops[i];
      if i > 0 {
        assert stops[..n][i - 1] == stops[i - 1];
      }
    }
  }

  /** The peer's answers fix the stops: two chains of the same length from
      the same read are the same. */
  lemma {:induction false} ChangeChainUnique(peer: nat -> u32, p: nat, a: seq<nat>, b: seq<nat>)
    requires |a| == |b| && ChangeChain(peer, p, a) && ChangeChain(peer, p, b)
    ensures a == b
    decreases |a|
  {
    if a != [] {
      var n := |a| - 1;
      ChangeChainPrefix(peer, p, a, n);
      ChangeChainPrefix(peer, p, b, n);
      ChangeChainUnique(peer, p, a[..n], b[..n]);
      var start := if n == 0 then p else a[n - 1] + 1;
      assert FirstChange(peer, start, a[n]) && FirstChange(peer, start, b[n]);
      assert a == a[..n] + [a[n]] && b == b[..n] + [b[n]];
    }
  }

  /** The state of the tick wait: since the `p0`-th read every update index
      read was `last`, so the segment still holds `b`, whose update index is `last`. */
  ghost predicate Ticking(shm: Segment, last: u32, t: seq<Event>, p0: nat, b: seq<byte>)
    reads shm`polls, shm`trace, shm.bytes
  {
    && shm.Valid() && |b| == SHM_BYTES
    && b[UPDATE_IDX_OFF .. UPDATE_IDX_OFF + WORD] == LeU32(last)
    && p0 <= shm.polls
    && shm.trace == t + Polled(UPDATE_IDX_OFF, Values(shm.peer, p0, shm.polls))
    && (forall j :: p0 <= j < shm.polls ==> shm.peer(j) == last)
    && shm.bytes[..] == b
  }

  /** One read of the update index in the tick wait. */
  method PollTick(shm: Segment, last: u32, ghost t: seq<Event>, ghost p0: nat, ghost b: seq<byte>)
    returns (v: u32)
    requires Ticking(shm, last, t, p0, b)
    modifies shm`polls, shm`trace, shm.bytes
    ensures v == shm.peer(old(shm.polls)) && shm.polls == old(shm.polls) + 1
    ensures shm.trace == t + Polled(UPDATE_IDX_OFF, Values(shm.peer, p0, shm.polls))
    ensures shm.bytes[..] == Splice(b, UPDATE_IDX_OFF, LeU32(v))
    ensures v == last ==> Ticking(shm, last, t, p0, b)
  {
    ghost var n := shm.polls;
    ghost var vs := Values(shm.peer, p0, n);
    ValuesSnoc(shm.peer, p0, n);
    PolledSnoc(UPDATE_IDX_OFF, vs, shm.peer(n));
    v := shm.Poll(UPDATE_IDX_OFF);
    assert shm.trace == t + Polled(UPDATE_IDX_OFF, vs + [v]);
    if v == last {
      SpliceSame(b, UPDATE_IDX_OFF, LeU32(last));
    }
  }

  /** The loop of `write_action_until_frame`: read the update index until it
      differs from `last`, yielding (`time.sleep(0)`) between reads. */
  method AwaitTick(shm: Segment, last: u32, ghost b: seq<byte>) returns (ghost seen: seq<u32>)
    requires Ticking(shm, last, shm.trace, shm.polls, b)
    requires exists k :: shm.polls <= k && shm.peer(k) != last
    modifies shm`polls, shm`trace, shm`clock, shm.bytes
    ensures old(shm.polls) <= shm.polls
    ensures seen == Values(shm.peer, old(shm.polls), shm.polls) && StoppedAtChange(seen, last)
    ensures shm.trace == old(shm.trace) + Polled(UPDATE_IDX_OFF, seen)
    ensures shm.bytes[..] == Splice(b, UPDATE_IDX_OFF, LeU32(seen[|seen| - 1]))
    ensures shm.clock == old(shm.clock)
  {
    ghost var t := shm.trace;
    ghost var p0 := shm.polls;
    ghost var k :| p0 <= k && shm.peer(k) != last;
    while true
      invariant Ticking(shm, last, t, p0, b)
      invariant shm.polls <= k && shm.clock == old(shm.clock)
      decreases k - shm.polls
    {
      var v := PollTick(shm, last, t, p0, b);
      if v != last {
        seen := Values(shm.peer, p0, shm.polls);
        return;
      }
      shm.Sleep(0);
    }
  }

  /** One store of the call slot: the arguments at `ARGS_OFF`, if any, then
      the id at `FUNC_OFF`. The slot is overwritten whatever it held. */
  method Post(shm: Segment, id: u32, args: seq<f32>)
    requires shm.Valid() && (args == [] || |args| == 3)
    modifies shm`trace, shm.bytes
    ensures shm.trace == old(shm.trace) + Issue(id, args)
    ensures shm.bytes[..] == Splice(old(shm.bytes[..]), FUNC_OFF, LeU32(id) + EncodeWords(args))
  {
    ghost var before := shm.bytes[..];
    if args != [] {
      shm.Store(ARGS_OFF, EncodeWords(args));
    }
    shm.Store(FUNC_OFF, LeU32(id));
    if args != [] {
      SpliceAdjacent(before, FUNC_OFF, LeU32(id), EncodeWords(args));
    } else {
      assert LeU32(id) + EncodeWords(args) == LeU32(id);
    }
  }

  /** The loop of the busy wait of every waiting call: read the call slot
      until the peer has written `IDLE` back, pausing `pauseMs` between reads. */
  method SpinIdle(shm: Segment, pauseMs: nat, ghost before: seq<byte>)
    requires Spinning(shm, FUNC_OFF, IDLE, shm.trace, shm.polls, before)
    requires Eventually(shm.peer, shm.polls, IDLE)
    modifies shm`polls, shm`trace, shm`clock, shm.bytes
    ensures SpinStopped(shm, FUNC_OFF, IDLE, old(shm.trace), old(shm.polls), before)
    ensures shm.peer(shm.polls - 1) == IDLE
    ensures shm.clock == old(shm.clock) + Pauses(pauseMs, shm.polls - 1 - old(shm.polls))
  {
    ghost var t := shm.trace;
    ghost var p0 := shm.polls;
    var c0 := shm.clock;
    ghost var k :| p0 <= k && shm.peer(k) == IDLE;
    while true
      invariant Spinning(shm, FUNC_OFF, IDLE, t, p0, before)
      invariant shm.polls <= k
      invariant shm.clock == c0 + Pauses(pauseMs, shm.polls - p0)
      decreases k - shm.polls
    {
      var v := PollFor(shm, FUNC_OFF, IDLE, t, p0, before);
      if v == IDLE {
        return;
      }
      shm.Sleep(pauseMs);
    }
  }

  /** The time spent in `n` pauses of `ms` milliseconds each. */
  function Pauses(ms: nat, n: nat): nat
  {
    if n == 0 then 0 else Pauses(ms, n - 1) + ms
  }

  lemma {:induction false} PausesTotal(ms: nat, n: nat)
    ensures Pauses(ms, n) == ms * n
  {
    if n > 0 {
      PausesTotal(ms, n - 1);
      assert ms * n == ms * (n - 1) + ms;
    }
  }

  /** The busy wait of every waiting call. */
  method AwaitIdle(shm: Segment, pauseMs: nat) returns (ghost seen: seq<u32>)
    requires shm.Valid() && Eventually(shm.peer, shm.polls, IDLE)
    modifies shm`polls, shm`trace, shm`clock, shm.bytes
    ensures old(shm.polls) <= shm.polls
    ensures seen == Values(shm.peer, old(shm.polls), shm.polls) && StoppedAtFirst(seen, IDLE)
    ensures shm.trace == old(shm.trace) + Polled(FUNC_OFF, seen)
    ensures shm.bytes[..] == Splice(old(shm.bytes[..]), FUNC_OFF, LeU32(IDLE))
    ensures shm.clock == old(shm.clock) + Pauses(pauseMs, |seen| - 1)
  {
    SpinIdle(shm, pauseMs, shm.bytes[..]);
    seen := Values(shm.peer, old(shm.polls), shm.polls);
  }

  /** A call through the slot: post it and, if `wait`, wait for `IDLE`. */
  method Call(shm: Segment, id: u32, args: seq<f32>, wait: bool, pauseMs: nat) returns (ghost done: seq<u32>)
    requires shm.Valid() && (args == [] || |args| == 3)
    requires wait ==> Eventually(shm.peer, shm.polls, IDLE)
    modifies shm`polls, shm`trace, shm`clock, shm.bytes
    ensures old(shm.polls) <= shm.polls
      ensures done == Values(shm.peer, old(shm.polls), shm.polls)
    ensures wait ==> StoppedAtFirst(done, IDLE)
    ensures !wait ==> done == []
    ensures shm.trace == old(shm.trace) + Issue(id, args) + Polled(FUNC_OFF, done)
    ensures shm.bytes[..] == Splice(old(shm.bytes[..]), FUNC_OFF, LeU32(if wait then IDLE else id) + EncodeWords(args))
    ensures shm.clock == old(shm.clock) + (if wait then Pauses(pauseMs, |done| - 1) else 0)
  {
    ghost var before := shm.bytes[..];
    Post(shm, id, args);
    done := [];
    if wait {
      done := AwaitIdle(shm, pauseMs);
      SpliceOverPrefix(before, FUNC_OFF, LeU32(id), EncodeWords(args), LeU32(IDLE));
    }
  }

  /** What the readiness check and `parametrize` of `launch` did, sending
      `blob`, between the state after `p0` reads (trace `t0`, clock `c0`, bytes
      `b0`) and the state after `polls` reads (trace `t`, clock `c`, bytes `b`):
      the check ended after `p1` reads; `ready` exactly when its last read,
      and none before, was `0`; `acked` exactly when it was ready and the last
      read, and none since the check, was the acknowledgement. The trace is
      the check's reads, then, when ready, the sends and rounds of
      `parametrize`; 10 ms per read of the check and 100 ms per resend. The
      check, given `wait` ms, gave up only once its time reached `wait`, and
      went on reading only while the time before its last read was below it;
      the send gave up only once its time reached the 30 s timeout, and
      resent only while the time before its last resend was below it. */
  ghost predicate HandshakeRun(peer: nat -> u32, blob: seq<byte>, wait: int, p0: nat, p1: nat, polls: nat,
                               t0: seq<Event>, t: seq<Event>, c0: int, c: int, b0: seq<byte>, b: seq<byte>,
                               ready: bool, acked: bool)
  {
    && p0 < p1 <= polls
    && (ready <==> peer(p1 - 1) == UNSET)
    && (forall j :: p0 <= j < p1 - 1 ==> peer(j) != UNSET)
    && (!ready ==> p1 == polls)
    && (ready ==> p1 < polls && forall j :: p1 <= j < polls - 1 ==> peer(j) != ACKNOWLEDGED)
    && (acked <==> ready && peer(polls - 1) == ACKNOWLEDGED)
    && (var resent := if acked then polls - 1 else polls;
        && (!ready ==> t == t0 + Polled(HP_OFF, Values(peer, p0, p1)))
        && (ready ==> t == t0 + Polled(HP_OFF, Values(peer, p0, p1)) + Send(blob) + Rounds(blob, Values(peer, p1, resent))
                           + (if acked then [Saw(HP_OFF, ACKNOWLEDGED)] else []))
        && c == c0 + 10 * (p1 - p0 - 1) + (if ready then 100 * (resent - p1) else 0)
        && (!ready ==> wait > 0 && 10 * (p1 - p0 - 1) >= wait && 10 * (p1 - p0 - 1) - READY_POLL_MS < wait)
        && (ready && wait > 0 ==> p1 == p0 + 1 || 10 * (p1 - p0 - 1) - READY_POLL_MS < wait)
        && (ready && !acked ==> 100 * (resent - p1) >= PARAMETRIZE_TIMEOUT_MS
                                && (resent - p1 == 1 || 100 * (resent - p1) - RESEND_MS < PARAMETRIZE_TIMEOUT_MS))
        && (acked ==> 100 * (resent - p1) < PARAMETRIZE_TIMEOUT_MS))
    && |b0| == SHM_BYTES && |blob| == HP_BYTES
    && b == if ready then Splice(b0, HP_OFF, Block(if acked then ACKNOWLEDGED else PENDING, blob))
      else Splice(b0, HP_OFF, LeU32(peer(p1 - 1)))
  }

  /** A readiness check that never saw `0` is a handshake that was not ready. */
  lemma NotReadyRun(peer: nat -> u32, blob: seq<byte>, wait: int, p0: nat, p1: nat,
                    t0: seq<Event>, t: seq<Event>, c0: int, c: int, b0: seq<byte>, b: seq<byte>)
    requires p0 < p1 && |b0| == SHM_BYTES && |blob| == HP_BYTES
    requires peer(p1 - 1) != UNSET && forall j :: p0 <= j < p1 - 1 ==> peer(j) != UNSET
    requires t == t0 + Polled(HP_OFF, Values(peer, p0, p1)) && c == c0 + 10 * (p1 - p0 - 1)
    requires wait > 0 && c - c0 >= wait && c - c0 - READY_POLL_MS < wait
    requires b == Splice(b0, HP_OFF, LeU32(peer(p1 - 1)))
    ensures HandshakeRun(peer, blob, wait, p0, p1, p1, t0, t, c0, c, b0, b, false, false)
  {
  }

  /** A readiness check that saw `0` at its last read, followed by
      `parametrize`, is a handshake that was ready. */
  lemma ReadyRun(peer: nat -> u32, blob: seq<byte>, wait: int, p0: nat, p1: nat, polls: nat,
                 t0: seq<Event>, t1: seq<Event>, t: seq<Event>, c0: int, c1: int, c: int,
                 b0: seq<byte>, b1: seq<byte>, b: seq<byte>, acked: bool)
    requires p0 < p1 < polls && |b0| == SHM_BYTES && |blob| == HP_BYTES
    requires peer(p1 - 1) == UNSET && forall j :: p0 <= j < p1 - 1 ==> peer(j) != UNSET
    requires t1 == t0 + Polled(HP_OFF, Values(peer, p0, p1)) && c1 == c0 + 10 * (p1 - p0 - 1)
    requires wait > 0 ==> p1 == p0 + 1 || c1 - c0 - READY_POLL_MS < wait
    requires b1 == Splice(b0, HP_OFF, LeU32(peer(p1 - 1)))
    requires forall j :: p1 <= j < polls - 1 ==> peer(j) != ACKNOWLEDGED
    requires acked <==> peer(polls - 1) == ACKNOWLEDGED
    requires var resent := if acked then polls - 1 else polls;
      && t == t1 + Send(blob) + Rounds(blob, Values(peer, p1, resent)) + (if acked then [Saw(HP_OFF, ACKNOWLEDGED)] else [])
      && c == c1 + 100 * (resent - p1)
    requires !acked ==> c - c1 >= PARAMETRIZE_TIMEOUT_MS && (c - c1 == RESEND_MS || c - c1 - RESEND_MS < PARAMETRIZE_TIMEOUT_MS)
    requires acked ==> c == c1 || c - c1 < PARAMETRIZE_TIMEOUT_MS
    requires b == Splice(b1, HP_OFF, Block(if acked then ACKNOWLEDGED else PENDING, blob))
    ensures HandshakeRun(peer, blob, wait, p0, p1, polls, t0, t, c0, c, b0, b, true, acked)
  {
    SpliceCovers(b0, HP_OFF, LeU32(UNSET), Block(if acked then ACKNOWLEDGED else PENDING, blob));
  }

  /** What the peer finds after a handshake: when the check never saw `0`, only
      reads happened and the state word holds the last value read; once
      ready, the block holds the payload behind the acknowledgement or the
      pending state. */
  lemma HandshakeLeaves(peer: nat -> u32, blob: seq<byte>, wait: int, p0: nat, p1: nat, polls: nat,
                        t0: seq<Event>, t: seq<Event>, c0: int, c: int, b0: seq<byte>, b: seq<byte>,
                        ready: bool, acked: bool)
    requires HandshakeRun(peer, blob, wait, p0, p1, polls, t0, t, c0, c, b0, b, ready, acked)
    ensures !ready ==>
      && t == t0 + Polled(HP_OFF, Values(peer, p0, polls))
      && (forall j :: p0 <= j < polls ==> peer(j) != UNSET)
      && U32At(b, HP_OFF) == peer(polls - 1)
    ensures ready ==>
      && U32At(b, HP_OFF) == (if acked then ACKNOWLEDGED else PENDING)
      && b[HP_OFF + WORD .. HP_OFF + WORD + HP_BYTES] == blob
  {
    if ready {
      BlockAt(b0, if acked then ACKNOWLEDGED else PENDING, blob);
    } else {
      U32AtSplice(b0, HP_OFF, peer(p1 - 1));
    }
  }

  /** The first two stages of `launch`: wait for readiness and, once ready,
      send `params` with `parametrize`'s default timeout. */
  method ReadyThenParametrize(seg: Segment, params: Params, waitForUnityMs: int)
    returns (ready: bool, acked: bool, ghost p1: nat)
    requires seg.Valid()
    requires waitForUnityMs > 0 || Eventually(seg.peer, seg.polls, UNSET)
    modifies seg`polls, seg`trace, seg`clock, seg.bytes
    ensures HandshakeRun(seg.peer, Pack(params), waitForUnityMs, old(seg.polls), p1, seg.polls, old(seg.trace), seg.trace,
                         old(seg.clock), seg.clock, old(seg.bytes[..]), seg.bytes[..], ready, acked)
    ensures !ready ==> waitForUnityMs > 0 && seg.clock - old(seg.clock) >= waitForUnityMs
    ensures ready && !acked ==> seg.clock - old(seg.clock) >= PARAMETRIZE_TIMEOUT_MS
  {
    acked := false;
    ghost var p0, t0, c0, s0 := seg.polls, seg.trace, seg.clock, seg.bytes[..];
    ready := CheckUnityReadiness(seg, waitForUnityMs);
    p1 := seg.polls;
    if ready {
      ghost var t1, c1, s1 := seg.trace, seg.clock, seg.bytes[..];
      acked := Parametrize(seg, params, Some(PARAMETRIZE_TIMEOUT_MS));
      ReadyRun(seg.peer, Pack(params), waitForUnityMs, p0, p1, seg.polls, t0, t1, seg.trace, c0, c1, seg.clock, s0, s1, seg.bytes[..], acked);
    } else {
      NotReadyRun(seg.peer, Pack(params), waitForUnityMs, p0, p1, t0, seg.trace, c0, seg.clock, s0, seg.bytes[..]);
    }
  }

  /** The segment side of `launch`: wait for readiness, send `params` with
      `parametrize`'s default timeout and, once acknowledged, bind the camera
      views. `Ok(None)` is `launch` returning `False`. The readiness check
      ends after `p1` reads; `ready` is that it saw `0`, and `acked` that
      `parametrize` then saw the acknowledgement. */
  method Handshake(seg: Segment, params: Params, waitForUnityMs: int)
    returns (r: Result<Option<Frames>, Fault>, ghost ready: bool, ghost acked: bool, ghost p1: nat)
    requires seg.Valid()
    requires waitForUnityMs > 0 || Eventually(seg.peer, seg.polls, UNSET)
    modifies seg`polls, seg`trace, seg`clock, seg.bytes
    ensures r == Ok(None) <==> !ready || !acked
    ensures HandshakeRun(seg.peer, Pack(params), waitForUnityMs, old(seg.polls), p1, seg.polls, old(seg.trace), seg.trace,
                         old(seg.clock), seg.clock, old(seg.bytes[..]), seg.bytes[..], ready, acked)
    ensures !ready ==> waitForUnityMs > 0 && seg.clock - old(seg.clock) >= waitForUnityMs
    ensures ready && !acked ==> seg.clock - old(seg.clock) >= PARAMETRIZE_TIMEOUT_MS
    ensures ready && acked ==>
      r == (var p := Prepare(seg.bytes[..], CameraFlags(params)); if p.Ok? then Ok(Some(p.value)) else Err(p.error))
  {
    var unityReady, unityParametrized;
    unityReady, unityParametrized, p1 := ReadyThenParametrize(seg, params, waitForUnityMs);
    ready, acked := unityReady, unityParametrized;
    if !unityReady || !unityParametrized {
      return Ok(None), ready, acked, p1;
    }
    var prepared := PrepareFrames(seg, params);
    if prepared.Err? {
      return Err(prepared.error), ready, acked, p1;
    }
    r := Ok(Some(prepared.value));
  }

  /** One more blank step, stopping at `q`, moves the bytes on to the chain extended by `q`. */
  lemma {:induction false} BlankBytesSnoc(s0: seq<byte>, first: nat, peer: nat -> u32, stops: seq<nat>, q: nat)
    requires |s0| == SHM_BYTES && first + |stops| < 0x1_0000_0000
    ensures AfterBlanks(BlankBytes(s0, first, peer, stops), first + |stops|, peer(q)) == BlankBytes(s0, first, peer, stops + [q])
  {
    var i := |stops|;
    assert (stops + [q])[i] == q;
    if i > 0 {
      AfterBlanksStep(s0, first + i - 1, peer(stops[i - 1]), first + i, peer(q));
    }
  }

  /** A chain extended by the first change after the read where it resumes is a chain. */
  lemma {:induction false} ChangeChainSnoc(peer: nat -> u32, p0: nat, stops: seq<nat>, q: nat)
    requires ChangeChain(peer, p0, stops) && FirstChange(peer, Resume(p0, stops), q)
    ensures ChangeChain(peer, p0, stops + [q])
  {
    var stops' := stops + [q];
    forall i | 0 <= i < |stops'|
      ensures FirstChange(peer, if i == 0 then p0 else stops'[i - 1] + 1, stops'[i])
    {
      if i < |stops| {
        assert stops'[i] == stops[i];
        if i > 0 {
          assert stops'[i - 1] == stops[i - 1];
        }
      }
    }
  }

  /** The state `run_N_blank_timesteps(n)`'s loop keeps after `i` passes,
      having begun at the `p0`-th read with the trace `t0`, the bytes `s0`
      and the counter at `first`: the stores are the first `i` blank records,
      the waits stopped at `stops`, and the remaining changes are still to come. */
  ghost predicate BlankLoop(seg: Segment, t0: seq<Event>, s0: seq<byte>, p0: nat, first: nat, i: nat, n: nat,
                            steps: seq<Event>, stops: seq<nat>)
    reads seg`polls, seg`trace, seg.bytes
  {
    seg.Valid() && BlankState(seg.peer, seg.polls, seg.trace, seg.bytes[..], t0, s0, p0, first, i, n, steps, stops)
  }

  /** `BlankLoop` over the segment's read count `polls`, trace `t` and bytes `b`. */
  ghost predicate BlankState(peer: nat -> u32, polls: nat, t: seq<Event>, b: seq<byte>,
                             t0: seq<Event>, s0: seq<byte>, p0: nat, first: nat, i: nat, n: nat,
                             steps: seq<Event>, stops: seq<nat>)
  {
    && |s0| == SHM_BYTES && i <= n && first + n <= 0x1_0000_0000
    && Ticks(peer, polls, n - i)
    && t == t0 + steps && StoresOnlyActions(steps) && Actions(steps) == BlankRun(first, i)
    && |stops| == i && ChangeChain(peer, p0, stops) && polls == Resume(p0, stops)
    && b == BlankBytes(s0, first, peer, stops)
  }

  /** One blank step, which read from the `p`-th read up to the first change
      at `q` and stored record `first + i`, keeps the loop's state. */
  lemma {:induction false} BlankStateStep(peer: nat -> u32, p: nat, t: seq<Event>, b: seq<byte>,
                       t0: seq<Event>, s0: seq<byte>, p0: nat, first: nat, i: nat, n: nat,
                       steps: seq<Event>, stops: seq<nat>, q: nat, step: seq<Event>)
    requires BlankState(peer, p, t, b, t0, s0, p0, first, i, n, steps, stops) && i < n
    requires FirstChange(peer, p, q)
    requires StoresOnlyActions(steps + step)
    requires Actions(steps + step) == Actions(steps) + [ActionRecord(first + i, 0, 0, 0, 0)]
    ensures BlankState(peer, q + 1, t + step, AfterBlanks(b, first + i, peer(q)),
                       t0, s0, p0, first, i + 1, n, steps + step, stops + [q])
  {
    TicksStep(peer, p, q, n - i - 1);
    BlankRunSnoc(first, i);
    ChangeChainSnoc(peer, p0, stops, q);
    BlankBytesSnoc(s0, first, peer, stops, q);
    assert t + step == t0 + (steps + step);
  }

  /** The controller's side of the bridge. */
  class COL {
    const unityExe: string
    const logDir: string
    const config: Config
    const mapName: string
    const batchMode: bool

    var process: Option<Process>
    /** The mapped segment, or `null` when none is attached. */
    var shm: Segment?
    var hp: Option<Params>
    var framesShm: Option<map<string, FrameView>>
    var activeCameras: Option<seq<u32>>
    /** The sequence number of the next action record. */
    var next: nat

    /** A segment of the layout's size is attached. */
    ghost predicate Attached()
      reads this`shm
    {
      shm != null && shm.Valid()
    }

    /** `COL(unity_exe, log_dir, config, map_name, batch_mode)`: nothing is
        launched or attached yet, and actions will be numbered from 1. */
    constructor (unityExe: string, logDir: string, config: Config, mapName: string, batchMode: bool)
      ensures this.unityExe == unityExe && this.logDir == logDir && this.config == config
      ensures this.mapName == mapName && this.batchMode == batchMode
      ensures process == None && shm == null && hp == None
      ensures framesShm == None && activeCameras == None
      ensures next == 1
    {
      this.unityExe := unityExe;
      this.logDir := logDir;
      this.config := config;
      this.mapName := mapName;
      this.batchMode := batchMode;
      process := None;
      shm := null;
      hp := None;
      framesShm := None;
      activeCameras := None;
      next := 1;
    }

    /** `launch(wait_for_unity)` with the segment `prepare_shm` maps: populate
        the hyper-parameters, start the simulator if an executable is given,
        wait for readiness, send the hyper-parameters with the default
        timeout, and bind the camera views (`Handshake`). `ready` and `acked`
        are what the readiness check, which ends after `p1` reads, and
        `parametrize` returned; `Err` is the fault `prepare_frames` raises. */
    method Launch(seg: Segment, waitForUnityMs: int)
      returns (r: Result<bool, Fault>, ghost ready: bool, ghost acked: bool, ghost p1: nat)
      requires seg.Valid()
      requires waitForUnityMs > 0 || Eventually(seg.peer, seg.polls, UNSET)
      modifies this, seg`polls, seg`trace, seg`clock, seg.bytes
      ensures hp == Some(Populate(config)) && shm == seg && next == old(next)
      ensures process == if unityExe != [] then Some(Process(unityExe, logDir, batchMode)) else old(process)
      ensures r == Ok(false) <==> !ready || !acked
      ensures HandshakeRun(seg.peer, Pack(Populate(config)), waitForUnityMs, old(seg.polls), p1, seg.polls, old(seg.trace), seg.trace,
                           old(seg.clock), seg.clock, old(seg.bytes[..]), seg.bytes[..], ready, acked)
      ensures !ready ==> waitForUnityMs > 0 && seg.clock - old(seg.clock) >= waitForUnityMs
      ensures ready && !acked ==> seg.clock - old(seg.clock) >= PARAMETRIZE_TIMEOUT_MS
      ensures ready && acked ==> r.Ok? == Prepare(seg.bytes[..], CameraFlags(Populate(config))).Ok?
      ensures r.Err? ==> Prepare(seg.bytes[..], CameraFlags(Populate(config))) == Err(r.error)
      ensures r == Ok(true) ==>
        && framesShm == Some(Prepare(seg.bytes[..], CameraFlags(Populate(config))).value.views)
        && activeCameras == Some(CameraFlags(Populate(config)))
      ensures r != Ok(true) ==> framesShm == old(framesShm) && activeCameras == old(activeCameras)
    {
      var params := Populate(config);
      hp := Some(params);
      if unityExe != [] {
        process := Some(Process(unityExe, logDir, batchMode));
      }
      shm := seg;
      var outcome;
      outcome, ready, acked, p1 := Handshake(seg, params, waitForUnityMs);
      if outcome.Err? {
        return Err(outcome.error), ready, acked, p1;
      }
      if outcome.value.None? {
        return Ok(false), ready, acked, p1;
      }
      framesShm := Some(outcome.value.value.views);
      activeCameras := Some(outcome.value.value.active);
      r := Ok(true);
    }

    /** `close()`: detach the segment and stop the simulator; a second call
        changes nothing. */
    method Close()
      modifies this
      ensures shm == null && process == None
      ensures hp == old(hp) && framesShm == old(framesShm) && activeCameras == old(activeCameras)
      ensures next == old(next)
      ensures old(shm) == null && old(process) == None ==> unchanged(this)
    {
      if shm != null {
        shm := null;
      }
      if process.Some? {
        process := None;
      }
    }

    /** `move_player(x, y, z, wait)`: call 1 with `(x, y, z)`; when waiting,
        once it is done, `rebuild_chunks()`. */
    method MovePlayer(x: f32, y: f32, z: f32, wait: bool) returns (ghost done: seq<u32>, ghost rebuilt: seq<u32>)
      requires Attached()
      requires wait ==> exists k1, k2 :: shm.polls <= k1 < k2 && shm.peer(k1) == IDLE && shm.peer(k2) == IDLE
      modifies shm`polls, shm`trace, shm`clock, shm.bytes
      ensures old(shm.polls) <= shm.polls
      ensures done + rebuilt == Values(shm.peer, old(shm.polls), shm.polls)
      ensures wait ==> StoppedAtFirst(done, IDLE) && StoppedAtFirst(rebuilt, IDLE)
      ensures !wait ==> done == [] && rebuilt == []
      ensures shm.trace == old(shm.trace) + Issue(MOVE_PLAYER, [x, y, z]) + Polled(FUNC_OFF, done)
        + (if wait then Issue(REBUILD_CHUNKS, []) + Polled(FUNC_OFF, rebuilt) else [])
      ensures shm.bytes[..] == Splice(old(shm.bytes[..]), FUNC_OFF, LeU32(if wait then IDLE else MOVE_PLAYER) + EncodeWords([x, y, z]))
      ensures shm.clock == old(shm.clock)
    {
      ghost var p0 := shm.polls;
      ghost var before := shm.bytes[..];
      done := Call(shm, MOVE_PLAYER, [x, y, z], wait, 0);
      if wait {
        PausesTotal(0, |done| - 1);
      }
      rebuilt := [];
      if wait {
        StoppedAtFirstReads(shm.peer, p0, shm.polls, IDLE);
        ghost var p1 := shm.polls;
        ghost var mid := shm.bytes[..];
        rebuilt := RebuildChunks();
        ValuesAppend(shm.peer, p0, p1, shm.polls);
        assert mid == Splice(before, FUNC_OFF, LeU32(IDLE) + EncodeWords([x, y, z]));
        SpliceOverPrefix(before, FUNC_OFF, LeU32(IDLE), EncodeWords([x, y, z]), LeU32(IDLE));
        assert LeU32(IDLE) + EncodeWords([]) == LeU32(IDLE);
      }
    }

    /** `move_goal(x, y, z, wait)`: call 5 with `(x, y, z)`. */
    method MoveGoal(x: f32, y: f32, z: f32, wait: bool) returns (ghost done: seq<u32>)
      requires Attached() && (wait ==> Eventually(shm.peer, shm.polls, IDLE))
      modifies shm`polls, shm`trace, shm`clock, shm.bytes
      ensures old(shm.polls) <= shm.polls
      ensures done == Values(shm.peer, old(shm.polls), shm.polls)
      ensures if wait then StoppedAtFirst(done, IDLE) else done == []
      ensures shm.trace == old(shm.trace) + Issue(MOVE_GOAL, [x, y, z]) + Polled(FUNC_OFF, done)
      ensures shm.bytes[..] == Splice(old(shm.bytes[..]), FUNC_OFF, LeU32(if wait then IDLE else MOVE_GOAL) + EncodeWords([x, y, z]))
      ensures shm.clock == old(shm.clock)
    {
      done := Call(shm, MOVE_GOAL, [x, y, z], wait, 0);
      if wait {
        PausesTotal(0, |done| - 1);
      }
    }

    /** `rotate_player(x, y, z, wait)`: call 4 with `(x, y, z)`. */
    method RotatePlayer(x: f32, y: f32, z: f32, wait: bool) returns (ghost done: seq<u32>)
      requires Attached() && (wait ==> Eventually(shm.peer, shm.polls, IDLE))
      modifies shm`polls, shm`trace, shm`clock, shm.bytes
      ensures old(shm.polls) <= shm.polls
      ensures done == Values(shm.peer, old(shm.polls), shm.polls)
      ensures if wait then StoppedAtFirst(done, IDLE) else done == []
      ensures shm.trace == old(shm.trace) + Issue(ROTATE_PLAYER, [x, y, z]) + Polled(FUNC_OFF, done)
      ensures shm.bytes[..] == Splice(old(shm.bytes[..]), FUNC_OFF, LeU32(if wait then IDLE else ROTATE_PLAYER) + EncodeWords([x, y, z]))
      ensures shm.clock == old(shm.clock)
    {
      done := Call(shm, ROTATE_PLAYER, [x, y, z], wait, 0);
      if wait {
        PausesTotal(0, |done| - 1);
      }
    }

    /** `rebuild_chunks()`: call 2, without arguments, always waited for. */
    method RebuildChunks() returns (ghost done: seq<u32>)
      requires Attached() && Eventually(shm.peer, shm.polls, IDLE)
      modifies shm`polls, shm`trace, shm`clock, shm.bytes
      ensures old(shm.polls) <= shm.polls
      ensures done == Values(shm.peer, old(shm.polls), shm.polls) && StoppedAtFirst(done, IDLE)
      ensures shm.trace == old(shm.trace) + Issue(REBUILD_CHUNKS, []) + Polled(FUNC_OFF, done)
      ensures shm.bytes[..] == Splice(old(shm.bytes[..]), FUNC_OFF, LeU32(IDLE))
      ensures shm.clock == old(shm.clock)
    {
      done := Call(shm, REBUILD_CHUNKS, [], true, 0);
      PausesTotal(0, |done| - 1);
      assert LeU32(IDLE) + EncodeWords([]) == LeU32(IDLE);
    }

    /** `force_camera_read()`: call 3, without arguments, always waited for,
        pausing 1 ms between reads. */
    method ForceCameraRead() returns (ghost done: seq<u32>)
      requires Attached() && Eventually(shm.peer, shm.polls, IDLE)
      modifies shm`polls, shm`trace, shm`clock, shm.bytes
      ensures old(shm.polls) <= shm.polls
      ensures done == Values(shm.peer, old(shm.polls), shm.polls) && StoppedAtFirst(done, IDLE)
      ensures shm.trace == old(shm.trace) + Issue(FORCE_CAMERA_READ, []) + Polled(FUNC_OFF, done)
      ensures shm.bytes[..] == Splice(old(shm.bytes[..]), FUNC_OFF, LeU32(IDLE))
      ensures shm.clock == old(shm.clock) + (|done| - 1)
    {
      done := Call(shm, FORCE_CAMERA_READ, [], true, CAMERA_READ_PAUSE_MS);
      PausesTotal(CAMERA_READ_PAUSE_MS, |done| - 1);
      assert LeU32(IDLE) + EncodeWords([]) == LeU32(IDLE);
    }

    /** `promote_chunk(chunk_idx, wait)`: call 6 with `(chunk, 0.0, 0.0)`,
        where `chunk` is the bit pattern of `float(int(chunk_idx))`. */
    method PromoteChunk(chunk: f32, wait: bool) returns (ghost done: seq<u32>)
      requires Attached() && (wait ==> Eventually(shm.peer, shm.polls, IDLE))
      modifies shm`polls, shm`trace, shm`clock, shm.bytes
      ensures old(shm.polls) <= shm.polls
      ensures done == Values(shm.peer, old(shm.polls), shm.polls)
      ensures if wait then StoppedAtFirst(done, IDLE) else done == []
      ensures shm.trace == old(shm.trace) + Issue(PROMOTE_CHUNK, [chunk, ZERO_F32, ZERO_F32]) + Polled(FUNC_OFF, done)
      ensures shm.bytes[..] == Splice(old(shm.bytes[..]), FUNC_OFF,
        LeU32(if wait then IDLE else PROMOTE_CHUNK) + EncodeWords([chunk, ZERO_F32, ZERO_F32]))
      ensures shm.clock == old(shm.clock)
    {
      done := Call(shm, PROMOTE_CHUNK, [chunk, ZERO_F32, ZERO_F32], wait, 0);
      if wait {
        PausesTotal(0, |done| - 1);
      }
    }

    /** `write_action(fwd, turn, vert, grav)`: store the record stamped with
        the counter at `ACT_OFF`, then advance the counter by one. */
    method WriteAction(fwd: i32, turn: i32, vert: i32, grav: i32)
      requires Attached() && next < 0x1_0000_0000
      modifies this`next, shm`trace, shm.bytes
      ensures next == old(next) + 1
      ensures shm.trace == old(shm.trace) + [Wrote(ACT_OFF, ActionRecord(old(next), fwd, turn, vert, grav))]
      ensures shm.bytes[..] == Splice(old(shm.bytes[..]), ACT_OFF, ActionRecord(old(next), fwd, turn, vert, grav))
    {
      shm.Store(ACT_OFF, ActionRecord(next, fwd, turn, vert, grav));
      next := next + 1;
    }

    /** `write_action_until_frame(fwd, turn, vert, grav)`: read the update
        index, write the action, then wait until the update index changes. */
    method WriteActionUntilFrame(fwd: i32, turn: i32, vert: i32, grav: i32) returns (ghost last: u32, ghost seen: seq<u32>)
      requires Attached() && next < 0x1_0000_0000
      requires ChangesAfter(shm.peer, shm.polls)
      modifies this`next, shm`polls, shm`trace, shm`clock, shm.bytes
      ensures next == old(next) + 1
      ensures last == shm.peer(old(shm.polls))
      ensures old(shm.polls) < shm.polls
      ensures seen == Values(shm.peer, old(shm.polls) + 1, shm.polls) && StoppedAtChange(seen, last)
      ensures shm.trace == old(shm.trace)
        + [Saw(UPDATE_IDX_OFF, last), Wrote(ACT_OFF, ActionRecord(old(next), fwd, turn, vert, grav))]
        + Polled(UPDATE_IDX_OFF, seen)
      ensures shm.bytes[..] == Splice(Splice(old(shm.bytes[..]), ACT_OFF, ActionRecord(old(next), fwd, turn, vert, grav)),
        UPDATE_IDX_OFF, LeU32(seen[|seen| - 1]))
      ensures shm.clock == old(shm.clock)
    {
      ghost var s0 := shm.bytes[..];
      ghost var rec := ActionRecord(next, fwd, turn, vert, grav);
      var lastUpdateIndex := shm.Poll(UPDATE_IDX_OFF);
      last := lastUpdateIndex;
      WriteAction(fwd, turn, vert, grav);
      ghost var b := shm.bytes[..];
      SpliceRead(s0, UPDATE_IDX_OFF, LeU32(last), 0, WORD);
      SpliceKeeps(Splice(s0, UPDATE_IDX_OFF, LeU32(last)), ACT_OFF, rec, UPDATE_IDX_OFF, UPDATE_IDX_OFF + WORD);
      seen := AwaitTick(shm, lastUpdateIndex, b);
      SpliceCommute(s0, UPDATE_IDX_OFF, LeU32(last), ACT_OFF, rec);
      SpliceTwice(Splice(s0, ACT_OFF, rec), UPDATE_IDX_OFF, LeU32(last), LeU32(seen[|seen| - 1]));
    }

    /** One pass of `run_N_blank_timesteps`: a blank action, then the wait
        for the next simulation step. */
    method BlankStep(ghost steps: seq<Event>) returns (ghost step: seq<Event>)
      requires Attached() && next < 0x1_0000_0000 && ChangesAfter(shm.peer, shm.polls)
      requires StoresOnlyActions(steps)
      modifies this`next, shm`polls, shm`trace, shm`clock, shm.bytes
      ensures next == old(next) + 1 && shm.polls > old(shm.polls) && shm.clock == old(shm.clock)
      ensures shm.trace == old(shm.trace) + step
      ensures StoresOnlyActions(steps + step)
      ensures Actions(steps + step) == Actions(steps) + [ActionRecord(old(next), 0, 0, 0, 0)]
      ensures FirstChange(shm.peer, old(shm.polls), shm.polls - 1)
      ensures shm.bytes[..] == AfterBlanks(old(shm.bytes[..]), old(next), shm.peer(shm.polls - 1))
    {
      ghost var p := shm.polls;
      ghost var last, seen := WriteActionUntilFrame(0, 0, 0, 0);
      assert seen[|seen| - 1] == shm.peer(shm.polls - 1);
      FirstChangeOf(shm.peer, p, shm.polls - 1);
      step := [Saw(UPDATE_IDX_OFF, last), Wrote(ACT_OFF, ActionRecord(old(next), 0, 0, 0, 0))]
        + Polled(UPDATE_IDX_OFF, seen);
      StepActions(steps, last, ActionRecord(old(next), 0, 0, 0, 0), seen);
    }

    /** Pass `i` of `run_N_blank_timesteps(n)`'s loop, which began at the
        `p0`-th read with the counter at `first`, the trace `t0` and the
        bytes `s0`: one blank step more, stopping at the next change. */
    method NextBlankStep(ghost t0: seq<Event>, ghost s0: seq<byte>, ghost p0: nat, ghost first: nat, ghost i: nat, ghost n: nat,
                         ghost steps: seq<Event>, ghost stops: seq<nat>)
      returns (ghost steps': seq<Event>, ghost stops': seq<nat>)
      requires Attached() && i < n && next == first + i
      requires BlankLoop(shm, t0, s0, p0, first, i, n, steps, stops)
      modifies this`next, shm`polls, shm`trace, shm`clock, shm.bytes
      ensures next == first + i + 1 && BlankLoop(shm, t0, s0, p0, first, i + 1, n, steps', stops')
      ensures shm.clock == old(shm.clock)
    {
      ghost var p, t, b := shm.polls, shm.trace, shm.bytes[..];
      ghost var step := BlankStep(steps);
      BlankStateStep(shm.peer, p, t, b, t0, s0, p0, first, i, n, steps, stops, shm.polls - 1, step);
      steps', stops' := steps + step, stops + [shm.polls - 1];
    }

    /** `run_N_blank_timesteps(n)`: `n` steps with the all-zero action; the
        counter advances by exactly `n`, and the only stores are the `n`
        blank records, stamped consecutively. */
    method RunNBlankTimesteps(n: nat) returns (ghost steps: seq<Event>, ghost stops: seq<nat>)
      requires Attached() && next + n <= 0x1_0000_0000
      requires Ticks(shm.peer, shm.polls, n)
      modifies this`next, shm`polls, shm`trace, shm`clock, shm.bytes
      ensures next == old(next) + n
      ensures shm.trace == old(shm.trace) + steps
      ensures StoresOnlyActions(steps)
      ensures Actions(steps) == BlankRun(old(next), n)
      ensures |stops| == n && ChangeChain(shm.peer, old(shm.polls), stops) && shm.polls == Resume(old(shm.polls), stops)
      ensures shm.bytes[..] == if n == 0 then old(shm.bytes[..])
        else AfterBlanks(old(shm.bytes[..]), old(next) + n - 1, shm.peer(stops[n - 1]))
      ensures shm.clock == old(shm.clock)
    {
      ghost var first := next;
      ghost var t0 := shm.trace;
      ghost var p0 := shm.polls;
      ghost var s0 := shm.bytes[..];
      steps := [];
      stops := [];
      for i := 0 to n
        invariant next == first + i && shm.clock == old(shm.clock)
        invariant BlankLoop(shm, t0, s0, p0, first, i, n, steps, stops)
      {
        steps, stops := NextBlankStep(t0, s0, p0, first, i, n, steps, stops);
      }
    }

    /** `extract_xyz()`: fields 3 to 8 of the `<IIffffff` header, which are the
        words at bytes 8 .. 32 of the segment. */
    method ExtractXyz() returns (pose: Pose)
      requires Attached()
      ensures pose.px == U32At(shm.bytes[..], POSE_OFF)
      ensures pose.py == U32At(shm.bytes[..], POSE_OFF + WORD)
      ensures pose.pz == U32At(shm.bytes[..], POSE_OFF + 2 * WORD)
      ensures pose.rx == U32At(shm.bytes[..], POSE_OFF + 3 * WORD)
      ensures pose.ry == U32At(shm.bytes[..], POSE_OFF + 4 * WORD)
      ensures pose.rz == U32At(shm.bytes[..], POSE_OFF + 5 * WORD)
    {
      var hdr := shm.bytes[..POSE_HDR_BYTES];
      var fields := DecodeWords(hdr);
      pose := Pose(fields[2], fields[3], fields[4], fields[5], fields[6], fields[7]);
      forall k | 2 <= k < 8
        ensures fields[k] == U32At(shm.bytes[..], WORD * k)
      {
        DecodeWordsAt(hdr, k);
        assert hdr[WORD * k .. WORD * k + WORD] == shm.bytes[..][WORD * k .. WORD * k + WORD];
      }
    }

    /** `extract_collisions()`: the 16 flag bytes right behind the 32-byte header. */
    method ExtractCollisions() returns (flags: seq<byte>)
      requires Attached()
      ensures |flags| == COLLISION_BYTES
      ensures forall k :: 0 <= k < COLLISION_BYTES ==> flags[k] == shm.bytes[POSE_HDR_BYTES + k]
    {
      flags := shm.bytes[COLLISION_OFF .. COLLISION_OFF + COLLISION_BYTES];
    }
  }
}
