/**
 * What the TCP and UDP servers of internal/core share: the back-off of their accept loops and the
 * read-decode-dispatch loop of a connection, as functions of the events the listener and the connection
 * deliver. The servers' own loops are proved against these.
 */
module ServerLoops {
  import opened Bytes
  import opened Wrappers
  import opened Errors
  import opened PacketCodec
  import PeerState
  import Router

  /** time.Millisecond and time.Second, in nanoseconds. */
  const Millisecond: nat := 1_000_000
  const Second: nat := 1_000_000_000

  /** The first back-off delay. */
  const InitialDelay: nat := 5 * Millisecond

  /** The delay after a temporary accept error: 5 ms from zero, otherwise doubled, and never above one second. */
  function NextDelay(delay: nat): (r: nat)
    ensures delay == 0 ==> r == InitialDelay
    ensures delay != 0 ==> r == if 2 * delay > Second then Second else 2 * delay
  {
    if delay == 0 then InitialDelay
    else if 2 * delay > Second then Second
    else 2 * delay
  }

  /** A delay the loop can hold: zero after a success, otherwise between 5 ms and 1 s. */
  predicate Reachable(delay: nat)
  {
    delay == 0 || InitialDelay <= delay <= Second
  }

  /** Back-off stays within [5 ms, 1 s] and keeps the delay reachable. */
  lemma NextDelayBounded(delay: nat)
    requires Reachable(delay)
    ensures InitialDelay <= NextDelay(delay) <= Second && Reachable(NextDelay(delay))
  {
  }

  function Pow2(k: nat): (r: nat)
    ensures r >= 1
  {
    if k == 0 then 1 else 2 * Pow2(k - 1)
  }

  /** The k-th delay of an unbroken run of temporary errors (counting from 0): min(5 ms * 2^k, 1 s). */
  function RunDelay(k: nat): nat
  {
    if InitialDelay * Pow2(k) > Second then Second else InitialDelay * Pow2(k)
  }

  /** Doubling with the cap is the closed form: the delay after RunDelay(k) is RunDelay(k + 1). */
  lemma NextOfRunDelay(k: nat)
    ensures NextDelay(RunDelay(k)) == RunDelay(k + 1)
  {
    assert Pow2(k + 1) == 2 * Pow2(k);
    assert InitialDelay * Pow2(k + 1) == 2 * (InitialDelay * Pow2(k));
  }

  /** What the listener delivers on each Accept call. */
  datatype AcceptEvent = Accepted(remoteAddr: seq<byte>) | TemporaryError | FatalError

  /** The sleeps taken, the connections accepted, and whether the loop returned on a fatal error. */
  datatype Serving = Serving(sleeps: seq<nat>, accepted: seq<seq<byte>>, returned: bool)

  /** The accept loop from a given delay: sleep on a temporary error, reset on an accepted connection, stop on any other error. */
  function AcceptSpec(delay: nat, events: seq<AcceptEvent>): (r: Serving)
    ensures |r.sleeps| <= |events| && |r.accepted| <= |events|
    decreases |events|
  {
    if events == [] then Serving([], [], false)
    else
      match events[0]
      case Accepted(a) =>
        var r := AcceptSpec(0, events[1..]);
        Serving(r.sleeps, [a] + r.accepted, r.returned)
      case TemporaryError =>
        var d := NextDelay(delay);
        var r := AcceptSpec(d, events[1..]);
        Serving([d] + r.sleeps, r.accepted, r.returned)
      case FatalError => Serving([], [], true)
  }

  /** The sleeps and connections of the events already handled, followed by what the rest of the loop does. */
  function Then(sleeps: seq<nat>, accepted: seq<seq<byte>>, rest: Serving): Serving
  {
    Serving(sleeps + rest.sleeps, accepted + rest.accepted, rest.returned)
  }

  /** One turn of the accept loop: the first event, then the loop on the rest from the delay it leaves. */
  lemma AcceptStep(delay: nat, events: seq<AcceptEvent>, sleeps: seq<nat>, accepted: seq<seq<byte>>)
    requires events != []
    ensures events[0].Accepted? ==>
              Then(sleeps, accepted, AcceptSpec(delay, events)) ==
              Then(sleeps, accepted + [events[0].remoteAddr], AcceptSpec(0, events[1..]))
    ensures events[0].TemporaryError? ==>
              Then(sleeps, accepted, AcceptSpec(delay, events)) ==
              Then(sleeps + [NextDelay(delay)], accepted, AcceptSpec(NextDelay(delay), events[1..]))
    ensures events[0].FatalError? ==> Then(sleeps, accepted, AcceptSpec(delay, events)) == Serving(sleeps + [], accepted + [], true)
  {
    match events[0]
    case Accepted(a) => AcceptedStep(delay, events, sleeps, accepted);
    case TemporaryError => TemporaryStep(delay, events, sleeps, accepted);
    case FatalError =>
  }

  lemma AcceptedStep(delay: nat, events: seq<AcceptEvent>, sleeps: seq<nat>, accepted: seq<seq<byte>>)
    requires events != [] && events[0].Accepted?
    ensures Then(sleeps, accepted, AcceptSpec(delay, events)) ==
            Then(sleeps, accepted + [events[0].remoteAddr], AcceptSpec(0, events[1..]))
  {
    var r := AcceptSpec(0, events[1..]);
    assert AcceptSpec(delay, events) == Serving(r.sleeps, [events[0].remoteAddr] + r.accepted, r.returned);
    assert accepted + ([events[0].remoteAddr] + r.accepted) == (accepted + [events[0].remoteAddr]) + r.accepted;
  }

  lemma TemporaryStep(delay: nat, events: seq<AcceptEvent>, sleeps: seq<nat>, accepted: seq<seq<byte>>)
    requires events != [] && events[0].TemporaryError?
    ensures Then(sleeps, accepted, AcceptSpec(delay, events)) ==
            Then(sleeps + [NextDelay(delay)], accepted, AcceptSpec(NextDelay(delay), events[1..]))
  {
    var d := NextDelay(delay);
    var r := AcceptSpec(d, events[1..]);
    assert AcceptSpec(delay, events) == Serving([d] + r.sleeps, r.accepted, r.returned);
    assert sleeps + ([d] + r.sleeps) == (sleeps + [d]) + r.sleeps;
  }

  /** Every sleep of the accept loop lasts between 5 ms and 1 s. */
  lemma {:induction false} SleepsBounded(delay: nat, events: seq<AcceptEvent>)
    requires Reachable(delay)
    ensures forall i | 0 <= i < |AcceptSpec(delay, events).sleeps| :: InitialDelay <= AcceptSpec(delay, events).sleeps[i] <= Second
    decreases |events|
  {
    if events != [] {
      match events[0]
      case Accepted(_) => SleepsBounded(0, events[1..]);
      case TemporaryError => NextDelayBounded(delay); SleepsBounded(NextDelay(delay), events[1..]);
      case FatalError =>
    }
  }

  /** k temporary errors in a row. */
  function Temporaries(k: nat): (r: seq<AcceptEvent>)
    ensures |r| == k && forall i | 0 <= i < k :: r[i] == TemporaryError
  {
    seq(k, _ => TemporaryError)
  }

  /** After a success (or at start), k temporary errors sleep RunDelay(0), RunDelay(1), ..., RunDelay(k - 1). */
  lemma {:induction false} SleepsOfRun(k: nat)
    ensures var s := AcceptSpec(0, Temporaries(k)).sleeps;
            |s| == k && forall i | 0 <= i < k :: s[i] == RunDelay(i)
  {
    SleepsOfRunFrom(0, k);
  }

  lemma {:induction false} SleepsOfRunFrom(j: nat, k: nat)
    ensures var s := AcceptSpec(if j == 0 then 0 else RunDelay(j - 1), Temporaries(k)).sleeps;
            |s| == k && forall i | 0 <= i < k :: s[i] == RunDelay(j + i)
    decreases k
  {
    if k > 0 {
      var d := if j == 0 then 0 else RunDelay(j - 1);
      if j > 0 {
        NextOfRunDelay(j - 1);
      } else {
        assert Pow2(0) == 1;
      }
      assert NextDelay(d) == RunDelay(j);
      assert Temporaries(k)[1..] == Temporaries(k - 1);
      SleepsOfRunFrom(j + 1, k - 1);
    }
  }

  /** A successful accept resets the back-off: the next temporary error sleeps 5 ms, whatever the delay was. */
  lemma ResetAfterAccept(delay: nat, events: seq<AcceptEvent>)
    requires |events| >= 2 && events[0].Accepted? && events[1].TemporaryError?
    ensures AcceptSpec(delay, events).sleeps != [] && AcceptSpec(delay, events).sleeps[0] == InitialDelay
  {
  }

  /** The loop returns exactly when a fatal error occurs, and then has accepted only what came before it. */
  lemma {:induction false} ReturnsIffFatal(delay: nat, events: seq<AcceptEvent>)
    ensures AcceptSpec(delay, events).returned <==> FatalError in events
    decreases |events|
  {
    if events != [] {
      if events[0].Accepted? {
        ReturnsIffFatal(0, events[1..]);
      } else if events[0].TemporaryError? {
        ReturnsIffFatal(NextDelay(delay), events[1..]);
      }
      assert events == [events[0]] + events[1..];
    }
  }

  /** What one Read on a connection gives: the bytes read, or an error (io.EOF included). */
  datatype ReadEvent = Received(data: seq<byte>) | ReadError

  /**
   * The packets serve hands to Router.Input, in order: each read is decoded into a fresh packet, a read that
   * does not decode is skipped, and the first read error ends the loop.
   */
  function Delivered(results: seq<ReadEvent>): seq<PacketView>
  {
    if results == [] || results[0].ReadError? then []
    else Got(results[0].data) + Delivered(results[1..])
  }

  /** The packet one read gives: the bytes decoded into a fresh packet, or nothing when they do not decode. */
  function Got(data: seq<byte>): seq<PacketView>
  {
    var (pkt, err) := DecodeSpec(PacketView(0, 0, 0, None), data);
    if err.None? then [pkt] else []
  }

  /** `pkt := &packet.Packet{}` followed by `pkt.Decode(data)`: when the bytes decode, pkt is the one packet they give. */
  method DecodeFresh(data: seq<byte>) returns (pkt: PacketView, err: Option<Error>)
    ensures Got(data) == if err.None? then [pkt] else []
  {
    var p := new Packet.Empty();
    err := p.Decode(data);
    pkt := p.View();
  }

  /** One turn of the read loop: the packet of the first read, if it decodes, then the packets of the rest. */
  lemma DeliveredStep(results: seq<ReadEvent>, i: nat, inputs: seq<PacketView>)
    requires i < |results| && results[i].Received?
    ensures inputs + Delivered(results[i..]) == (inputs + Got(results[i].data)) + Delivered(results[i + 1..])
  {
    assert results[i..][1..] == results[i + 1..];
  }

  /** The read loop has ended: no packets after a read error or the last read. */
  lemma DeliveredEnd(results: seq<ReadEvent>, i: nat)
    requires i <= |results| && (i == |results| || results[i].ReadError?)
    ensures Delivered(results[i..]) == []
  {
  }

  /**
   * The loop of serve: read, decode into a fresh packet, skip what does not decode, stop at the first read
   * error. inputs are the packets handed to Router.Input, in order.
   */
  method ReadLoop(results: seq<ReadEvent>) returns (inputs: seq<PacketView>)
    ensures inputs == Delivered(results)
  {
    inputs := [];
    var i := 0;
    assert results[0..] == results;
    while i < |results| && results[i].Received?
      invariant 0 <= i <= |results|
      invariant inputs + Delivered(results[i..]) == Delivered(results)
    {
      inputs := ReadOne(results, i, inputs);
      i := i + 1;
    }
    DeliveredEnd(results, i);
  }

  /**
   * One turn of the read loop: the i-th read decoded into a fresh packet, which is appended when it decodes
   * and dropped otherwise.
   */
  method ReadOne(results: seq<ReadEvent>, i: nat, inputs: seq<PacketView>) returns (next: seq<PacketView>)
    requires i < |results| && results[i].Received?
    ensures next + Delivered(results[i + 1..]) == inputs + Delivered(results[i..])
    ensures |inputs| <= |next| <= |inputs| + 1 && next[..|inputs|] == inputs
  {
    DeliveredStep(results, i, inputs);
    var pkt, err := DecodeFresh(results[i].data);
    next := inputs;
    if err.None? {
      next := next + [pkt];
    }
  }

  /** At most one packet per read, and nothing from the results after the first error. */
  lemma {:induction false} DeliveredStopsAtError(pre: seq<ReadEvent>, post: seq<ReadEvent>)
    ensures |Delivered(pre)| <= |pre|
    ensures Delivered(pre + [ReadError] + post) == Delivered(pre)
  {
    if pre != [] {
      assert (pre + [ReadError] + post)[1..] == pre[1..] + [ReadError] + post;
      DeliveredStopsAtError(pre[1..], post);
    } else {
      assert pre + [ReadError] + post == [ReadError] + post;
    }
  }

  /**
   * A fresh packet has a nil payload slot, so every packet that reaches the router is a Handshake or a
   * HandshakeReply packet with its payload in place.
   */
  lemma {:induction false} DeliveredKinds(results: seq<ReadEvent>)
    ensures forall i | 0 <= i < |Delivered(results)| ::
              (Delivered(results)[i].typ == 3 || Delivered(results)[i].typ == 4) && Delivered(results)[i].payload.Some?
  {
    if results != [] && results[0].Received? {
      DeliveredKinds(results[1..]);
    }
  }

  /**
   * So the router, fed by serve, never writes to the TUN device, never answers AuxPeers or Ping: each
   * packet is either forwarded as a handshake or dropped.
   */
  lemma RouterOnDelivered(results: seq<ReadEvent>, i: nat, remoteAddr: seq<byte>,
                          peersOfDefault: Result<seq<PeerState.Peer>, Error>, peerOfSender: Option<PeerState.Peer>)
    requires i < |Delivered(results)|
    ensures var a := Router.Input(remoteAddr, Delivered(results)[i], peersOfDefault, peerOfSender);
            a.ForwardHandshake? || a.Nothing?
  {
    DeliveredKinds(results);
  }

  /** The size of a buffer the pool makes when it holds none. */
  const BufferSize: nat := 1500

  /**
   * bufPool.Get as a function of the buffers put back: the last one put back, or a new zeroed buffer of 1500
   * bytes when there is none.
   */
  function Taken(buffers: seq<seq<byte>>): (r: (seq<byte>, seq<seq<byte>>))
    ensures buffers == [] ==> r == (Zeros(BufferSize), [])
    ensures buffers != [] ==> r.1 + [r.0] == buffers
  {
    if buffers == [] then (Zeros(BufferSize), [])
    else (buffers[|buffers| - 1], buffers[..|buffers| - 1])
  }

  /** A buffer put back is the one the next Get hands out. */
  lemma TakenOfPut(buffers: seq<seq<byte>>, b: seq<byte>)
    ensures Taken(buffers + [b]) == (b, buffers)
  {
    assert (buffers + [b])[..|buffers|] == buffers;
  }

  /** bufPool: the buffers put back and not yet handed out again. */
  class Pool {
    var buffers: seq<seq<byte>>

    constructor ()
      ensures buffers == []
    {
      buffers := [];
    }

    method Get() returns (b: seq<byte>)
      modifies this
      ensures (b, buffers) == Taken(old(buffers))
    {
      if buffers == [] {
        b := Zeros(BufferSize);
      } else {
        b := buffers[|buffers| - 1];
        buffers := buffers[..|buffers| - 1];
      }
    }

    method Put(b: seq<byte>)
      modifies this
      ensures buffers == old(buffers) + [b]
    {
      buffers := buffers + [b];
    }
  }
}
