/** The mapped shared segment, as the controller sees it.

    The bytes are an array the controller reads and slice-assigns. The other
    side (the simulator) is an oracle `peer`: the n-th time the controller polls
    a u32 field it sees `peer(n)`, and that value is what the peer has stored
    in the segment at that field. Wall-clock time is `clock`, in milliseconds,
    advanced only by the controller's sleeps. The ghost `trace` records, in
    order, every store the controller makes and every value it polls, so that
    write ordering can be stated. */
module Shm {
  import opened Bytes
  import opened Layout

  /** One step of the controller's traffic on the segment. */
  datatype Event =
    | Wrote(offset: nat, data: seq<byte>)   // a slice assignment by the controller
    | Saw(offset: nat, value: u32)          // a polled u32 read

  /** The values the peer exposes on reads `from .. to - 1`. */
  function Values(peer: nat -> u32, from: nat, to: nat): (vs: seq<u32>)
    requires from <= to
    ensures |vs| == to - from
  {
    seq(to - from, i requires 0 <= i < to - from => peer(from + i))
  }

  /** Polling `off` and seeing each of `vs` in turn. */
  function Polled(off: nat, vs: seq<u32>): (t: seq<Event>)
    ensures |t| == |vs|
  {
    seq(|vs|, i requires 0 <= i < |vs| => Saw(off, vs[i]))
  }

  lemma ValuesSnoc(peer: nat -> u32, from: nat, to: nat)
    requires from <= to
    ensures Values(peer, from, to + 1) == Values(peer, from, to) + [peer(to)]
  {
  }

  lemma PolledSnoc(off: nat, vs: seq<u32>, v: u32)
    ensures Polled(off, vs + [v]) == Polled(off, vs) + [Saw(off, v)]
  {
  }

  /** The reads `from .. mid - 1` followed by the reads `mid .. to - 1`. */
  lemma ValuesAppend(peer: nat -> u32, from: nat, mid: nat, to: nat)
    requires from <= mid <= to
    ensures Values(peer, from, mid) + Values(peer, mid, to) == Values(peer, from, to)
  {
  }

  /** The peer eventually exposes `v`, at its `from`-th read or later. */
  ghost predicate Eventually(peer: nat -> u32, from: nat, v: u32)
  {
    exists k :: from <= k && peer(k) == v
  }

  /** After its `from`-th read the peer eventually exposes a different value. */
  ghost predicate ChangesAfter(peer: nat -> u32, from: nat)
  {
    exists k :: from < k && peer(k) != peer(from)
  }

  /** A spin that stopped at the first `v`: all earlier reads differ from it. */
  predicate StoppedAtFirst(vs: seq<u32>, v: u32)
  {
    |vs| > 0 && vs[|vs| - 1] == v && forall j :: 0 <= j < |vs| - 1 ==> vs[j] != v
  }

  /** A spin that stopped at the first `v` read no `v` before its last read. */
  lemma StoppedAtFirstReads(peer: nat -> u32, from: nat, to: nat, v: u32)
    requires from <= to && StoppedAtFirst(Values(peer, from, to), v)
    ensures peer(to - 1) == v
    ensures forall j :: from <= j < to - 1 ==> peer(j) != v
  {
    var vs := Values(peer, from, to);
    forall j | from <= j < to - 1
      ensures peer(j) != v
    {
      assert vs[j - from] == peer(j);
    }
  }

  /** Where a loop that polls the u32 at `off` until it reads `v` stops:
      since the `p0`-th read, with trace `t` and bytes `before`, every value
      read but the last was not `v`, and the field shows the last one. */
  ghost predicate SpinStopped(shm: Segment, off: nat, v: u32, t: seq<Event>, p0: nat, before: seq<byte>)
    reads shm`polls, shm`trace, shm.bytes
  {
    && shm.Valid() && off + WORD <= SHM_BYTES
    && p0 < shm.polls
    && shm.trace == t + Polled(off, Values(shm.peer, p0, shm.polls))
    && (forall j :: p0 <= j < shm.polls - 1 ==> shm.peer(j) != v)
    && |before| == shm.bytes.Length
    && shm.bytes[..] == Splice(before, off, LeU32(shm.peer(shm.polls - 1)))
  }

  /** The state such a loop keeps: nothing read yet, or stopped at a value
      that is not `v`. */
  ghost predicate Spinning(shm: Segment, off: nat, v: u32, t: seq<Event>, p0: nat, before: seq<byte>)
    reads shm`polls, shm`trace, shm.bytes
  {
    || (&& shm.Valid() && off + WORD <= SHM_BYTES
        && shm.polls == p0 && shm.trace == t
        && |before| == shm.bytes.Length && shm.bytes[..] == before)
    || (SpinStopped(shm, off, v, t, p0, before) && shm.peer(shm.polls - 1) != v)
  }

  /** One read of such a loop. */
  method PollFor(shm: Segment, off: nat, v: u32, ghost t: seq<Event>, ghost p0: nat, ghost before: seq<byte>)
    returns (w: u32)
    requires Spinning(shm, off, v, t, p0, before)
    modifies shm`polls, shm`trace, shm.bytes
    ensures w == shm.peer(old(shm.polls)) && shm.polls == old(shm.polls) + 1
    ensures SpinStopped(shm, off, v, t, p0, before)
    ensures w != v ==> Spinning(shm, off, v, t, p0, before)
  {
    ghost var n := shm.polls;
    ghost var vs := Values(shm.peer, p0, n);
    ValuesSnoc(shm.peer, p0, n);
    PolledSnoc(off, vs, shm.peer(n));
    w := shm.Poll(off);
    if n == p0 {
      assert shm.trace == t + Polled(off, vs + [w]);
    } else {
      assert shm.trace == t + Polled(off, vs + [w]);
      SpliceTwice(before, off, LeU32(shm.peer(n - 1)), LeU32(w));
    }
  }

  class Segment {
    const bytes: array<byte>
    const peer: nat -> u32
    var polls: nat
    var clock: int
    ghost var trace: seq<Event>

    ghost predicate Valid()
    {
      bytes.Length == SHM_BYTES
    }

    /** The segment `prepare_shm` maps, of the size `shm_size_bytes()`. */
    constructor (bytes: array<byte>, peer: nat -> u32)
      requires bytes.Length == SHM_BYTES
      ensures Valid() && this.bytes == bytes && this.peer == peer
      ensures polls == 0 && clock == 0 && trace == []
    {
      this.bytes := bytes;
      this.peer := peer;
      polls := 0;
      clock := 0;
      trace := [];
    }

    /** `shm[off : off + len(data)] = data` */
    method Store(off: nat, data: seq<byte>)
      requires off + |data| <= bytes.Length
      modifies bytes, this`trace
      ensures bytes[..] == Splice(old(bytes[..]), off, data)
      ensures trace == old(trace) + [Wrote(off, data)]
    {
      forall i | 0 <= i < |data| {
        bytes[off + i] := data[i];
      }
      assert bytes[..] == Splice(old(bytes[..]), off, data);
      trace := trace + [Wrote(off, data)];
    }

    /** `struct.unpack_from("<I", shm, off)[0]` on a field the peer writes:
        the peer's next value becomes visible there and is read. */
    method Poll(off: nat) returns (v: u32)
      requires off + WORD <= bytes.Length
      modifies bytes, this`polls, this`trace
      ensures v == peer(old(polls)) && polls == old(polls) + 1
      ensures bytes[..] == Splice(old(bytes[..]), off, LeU32(v))
      ensures trace == old(trace) + [Saw(off, v)]
    {
      v := peer(polls);
      polls := polls + 1;
      var w := LeU32(v);
      forall i | 0 <= i < WORD {
        bytes[off + i] := w[i];
      }
      assert bytes[..] == Splice(old(bytes[..]), off, w);
      trace := trace + [Saw(off, v)];
    }

    /** `time.sleep(ms / 1000)` */
    method Sleep(ms: nat)
      modifies this`clock
      ensures clock == old(clock) + ms
    {
      clock := clock + ms;
    }
  }
}
