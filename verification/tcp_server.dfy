/**
 * internal/core/tcp_server.go: the TCP server's accept loop with its back-off, and a connection's serve loop
 * and close. The listener and the connection are the events they deliver; every accepted connection would be
 * served by its own goroutine, so the accept loop returns the connections it made and serve is a method of
 * its own.
 */
module TcpServer {
  import opened Bytes
  import opened Wrappers
  import opened Errors
  import opened PacketCodec
  import opened ServerLoops
  import PeerState

  /** conn: an accepted connection, its remote address and its read buffer (nil until serve takes one). */
  class Conn {
    var remoteAddr: seq<byte>
    var buf: Option<seq<byte>>
    var closed: bool

    /** TCPServer.newConn */
    constructor (remoteAddr: seq<byte>)
      ensures this.remoteAddr == remoteAddr && buf == None && !closed
    {
      this.remoteAddr := remoteAddr;
      buf := None;
      closed := false;
    }

    /**
     * conn.serve: one writer cw for the whole connection, a buffer from the pool, then read, decode into a
     * fresh packet and hand it to Router.Input with cw, until the first read error. inputs are the packets
     * handed over, in order; the connection is not closed.
     */
    method Serve(results: seq<ReadEvent>, pool: Pool, writeFaults: seq<bool>) returns (cw: PeerState.Writer, inputs: seq<PacketView>)
      modifies this, pool
      ensures fresh(cw) && cw.remoteAddr == remoteAddr && cw.outbox == []
      ensures inputs == Delivered(results)
      ensures buf == Some(Taken(old(pool.buffers)).0) && pool.buffers == Taken(old(pool.buffers)).1
      ensures remoteAddr == old(remoteAddr) && closed == old(closed)
    {
      cw := new PeerState.Writer(remoteAddr, writeFaults);
      var b := pool.Get();
      buf := Some(b);
      inputs := ReadLoop(results);
    }

    /** conn.close: the buffer goes back to the pool only if serve took one, then the connection is closed. */
    method Close(pool: Pool)
      modifies this, pool
      ensures pool.buffers == old(pool.buffers) + (if old(buf).Some? then [old(buf).value] else [])
      ensures closed && buf == old(buf) && remoteAddr == old(remoteAddr)
    {
      if buf.Some? {
        pool.Put(buf.value);
      }
      closed := true;
    }
  }

  class Server {
    var listenAddr: seq<byte>

    constructor (listenAddr: seq<byte>)
      ensures this.listenAddr == listenAddr
    {
      this.listenAddr := listenAddr;
    }

    /**
     * TCPServer.ListenAndServe: a failed listen is returned at once; then each accept either makes a new
     * connection (and resets the delay), sleeps on a temporary error, or returns any other error. sleeps are
     * the delays slept, conns the connections made; no error means the events ran out with the loop still
     * accepting.
     */
    method ListenAndServe(listenOk: bool, events: seq<AcceptEvent>) returns (err: Option<Error>, sleeps: seq<nat>, conns: seq<Conn>)
      ensures !listenOk ==> err == Some(Transport) && sleeps == [] && conns == []
      ensures listenOk ==>
                var s := AcceptSpec(0, events);
                sleeps == s.sleeps && |conns| == |s.accepted| &&
                (forall k | 0 <= k < |conns| :: fresh(conns[k]) && conns[k].remoteAddr == s.accepted[k] && conns[k].buf.None? && !conns[k].closed) &&
                (err.Some? <==> s.returned) && (err.Some? ==> err == Some(Transport))
    {
      sleeps := [];
      conns := [];
      if !listenOk {
        return Some(Transport), sleeps, conns;
      }
      var tempDelay: nat := 0;
      ghost var accepted: seq<seq<byte>> := [];
      assert Then(sleeps, accepted, AcceptSpec(0, events)) == AcceptSpec(0, events);
      var i := 0;
      while i < |events|
        invariant 0 <= i <= |events|
        invariant Then(sleeps, accepted, AcceptSpec(tempDelay, events[i..])) == AcceptSpec(0, events)
        invariant |conns| == |accepted|
        invariant forall k | 0 <= k < |conns| :: fresh(conns[k]) && conns[k].remoteAddr == accepted[k] && conns[k].buf.None? && !conns[k].closed
      {
        assert events[i..][1..] == events[i + 1..];
        AcceptStep(tempDelay, events[i..], sleeps, accepted);
        ghost var next := NextDelay(tempDelay);
        match events[i] {
          case FatalError =>
            return Some(Transport), sleeps, conns;
          case TemporaryError =>
            if tempDelay == 0 {
              tempDelay := InitialDelay;
            } else {
              tempDelay := 2 * tempDelay;
              if tempDelay > Second {
                tempDelay := Second;
              }
            }
            assert tempDelay == next;
            sleeps := sleeps + [tempDelay];
          case Accepted(a) =>
            tempDelay := 0;
            var c := new Conn(a);
            conns := conns + [c];
            accepted := accepted + [a];
        }
        i := i + 1;
      }
      return None, sleeps, conns;
    }
  }
}
