/**
 * internal/core/udp_server.go: the UDP server's accept loop (the same back-off as the TCP server's), and a
 * connection's serve loop and close. Unlike the TCP server, serve makes a new writer for every packet it
 * hands to the router, and a failed listen is wrapped in "[udp_server] listen error".
 */
module UdpServer {
  import opened Bytes
  import opened Wrappers
  import opened Errors
  import opened PacketCodec
  import opened ServerLoops
  import PeerState

  class Server {
    var listenAddr: seq<byte>

    constructor (listenAddr: seq<byte>)
      ensures this.listenAddr == listenAddr
    {
      this.listenAddr := listenAddr;
    }

    /** UDPServer.newConn: the remote address as a string and a reference back to this server. */
    method NewConn(remoteAddr: seq<byte>) returns (c: Conn)
      ensures fresh(c) && c.server == this && c.remoteAddr == remoteAddr && c.buf.None? && !c.closed
    {
      c := new Conn(this, remoteAddr);
    }

    /**
     * UDPServer.ListenAndServe: a failed listen is returned wrapped; then each accept either makes a new
     * connection (and resets the delay), sleeps on a temporary error, or returns any other error.
     */
    method ListenAndServe(listenOk: bool, events: seq<AcceptEvent>) returns (err: Option<Error>, sleeps: seq<nat>, conns: seq<Conn>)
      ensures !listenOk ==> err == Some(ListenError(Transport)) && sleeps == [] && conns == []
      ensures listenOk ==>
                var s := AcceptSpec(0, events);
                sleeps == s.sleeps && |conns| == |s.accepted| &&
                (forall k | 0 <= k < |conns| ::
                   fresh(conns[k]) && conns[k].server == this && conns[k].remoteAddr == s.accepted[k] &&
                   conns[k].buf.None? && !conns[k].closed) &&
                (err.Some? <==> s.returned) && (err.Some? ==> err == Some(Transport))
    {
      sleeps := [];
      conns := [];
      if !listenOk {
        return Some(ListenError(Transport)), sleeps, conns;
      }
      var tempDelay: nat := 0;
      ghost var accepted: seq<seq<byte>> := [];
      assert Then(sleeps, accepted, AcceptSpec(0, events)) == AcceptSpec(0, events);
      var i := 0;
      while i < |events|
        invariant 0 <= i <= |events|
        invariant Then(sleeps, accepted, AcceptSpec(tempDelay, events[i..])) == AcceptSpec(0, events)
        invariant |conns| == |accepted|
        invariant forall k | 0 <= k < |conns| ::
                    fresh(conns[k]) && conns[k].server == this && conns[k].remoteAddr == accepted[k] &&
                    conns[k].buf.None? && !conns[k].closed
      {
        assert events[i..][1..] == events[i + 1..];
        AcceptStep(tempDelay, events[i..], sleeps, accepted);
        ghost var next := NextDelay(tempDelay);
        match events[i] {
          case FatalError =>
            return Some(Transport), sleeps, conns;
          case TemporaryError =>
            if tempDelay == 0 {
              tempDelay := InitialDelay;
            } else {
              tempDelay := 2 * tempDelay;
              if tempDelay > Second {
                tempDelay := Second;
              }
            }
            assert tempDelay == next;
            sleeps := sleeps + [tempDelay];
          case Accepted(a) =>
            tempDelay := 0;
            var c := NewConn(a);
            conns := conns + [c];
            accepted := accepted + [a];
        }
        i := i + 1;
      }
      return None, sleeps, conns;
    }
  }

  /**
   * The loop of conn.serve: as the TCP server's, but each packet handed to Router.Input comes with a new
   * writer on the connection; writers[k] is the one that came with inputs[k].
   */
  method ReadLoopWithWriters(results: seq<ReadEvent>, remoteAddr: seq<byte>) returns (inputs: seq<PacketView>, writers: seq<PeerState.Writer>)
    ensures inputs == Delivered(results)
    ensures |writers| == |inputs|
    ensures forall k | 0 <= k < |writers| :: fresh(writers[k]) && writers[k].remoteAddr == remoteAddr && writers[k].outbox == []
    ensures forall k, l | 0 <= k < l < |writers| :: writers[k] != writers[l]
  {
    inputs := [];
    writers := [];
    var i := 0;
    assert results[0..] == results;
    while i < |results| && results[i].Received?
      invariant 0 <= i <= |results|
      invariant inputs + Delivered(results[i..]) == Delivered(results)
      invariant |writers| == |inputs|
      invariant forall k | 0 <= k < |writers| :: fresh(writers[k]) && writers[k].remoteAddr == remoteAddr && writers[k].outbox == []
      invariant forall k, l | 0 <= k < l < |writers| :: writers[k] != writers[l]
    {
      var next := ReadOne(results, i, inputs);
      if |next| > |inputs| {
        var w := new PeerState.Writer(remoteAddr, []);
        writers := writers + [w];
      }
      inputs := next;
      i := i + 1;
    }
    DeliveredEnd(results, i);
  }

  /** conn: an accepted connection, the server it belongs to, and its read buffer (nil until serve takes one). */
  class Conn {
    var server: Server
    var remoteAddr: seq<byte>
    var buf: Option<seq<byte>>
    var closed: bool

    constructor (server: Server, remoteAddr: seq<byte>)
      ensures this.server == server && this.remoteAddr == remoteAddr && buf == None && !closed
    {
      this.server := server;
      this.remoteAddr := remoteAddr;
      buf := None;
      closed := false;
    }

    /**
     * conn.serve: a buffer from the pool, then read, decode into a fresh packet and hand it to Router.Input
     * with a new writer on the connection, until the first read error. inputs are the packets handed over,
     * in order, and writers the writer each came with; the connection is not closed.
     */
    method Serve(results: seq<ReadEvent>, pool: Pool) returns (inputs: seq<PacketView>, writers: seq<PeerState.Writer>)
      modifies this, pool
      ensures inputs == Delivered(results)
      ensures |writers| == |inputs|
      ensures forall k | 0 <= k < |writers| :: fresh(writers[k]) && writers[k].remoteAddr == remoteAddr && writers[k].outbox == []
      ensures forall k, l | 0 <= k < l < |writers| :: writers[k] != writers[l]
      ensures buf == Some(Taken(old(pool.buffers)).0) && pool.buffers == Taken(old(pool.buffers)).1
      ensures server == old(server) && remoteAddr == old(remoteAddr) && closed == old(closed)
    {
      var b := pool.Get();
      buf := Some(b);
      inputs, writers := ReadLoopWithWriters(results, remoteAddr);
    }

    /** conn.close: the buffer goes back to the pool only if serve took one, then the connection is closed. */
    method Close(pool: Pool)
      modifies this, pool
      ensures pool.buffers == old(pool.buffers) + (if old(buf).Some? then [old(buf).value] else [])
      ensures closed && buf == old(buf) && server == old(server) && remoteAddr == old(remoteAddr)
    {
      if buf.Some? {
        pool.Put(buf.value);
      }
      closed := true;
    }
  }
}
