/** The TCP server's peer list (IoServices/TcpServer.cpp:108-126, 238-283) over connection objects.
Every method is a step of `BroadcastProtocol`; the purge compacts the list in place. */
module TcpServer {
  import opened Bytes
  import opened IoBufferWrapper
  import opened TcpPeerConnection
  import opened BroadcastProtocol
  import B = BroadcastProtocol
  import W = WriteProtocol

  /** The server machine's record of a connection agrees with its write queue. */
  ghost predicate Records(p: Peer, tx: W.Tx) {
    W.Inv(tx) && p.isOpen == tx.isOpen && Messages(p.history) == tx.enqueued
  }

  lemma RecordsWrite(p: Peer, tx: W.Tx, msg: Message, broadcast: bool)
    requires Records(p, tx)
    ensures Records(Enqueue(p, msg, broadcast), W.Step(tx, W.AsyncWrite(msg)))
  {
    W.StepKeepsInv(tx, W.AsyncWrite(msg));
    assert Messages(Enqueue(p, msg, broadcast).history) == Messages(p.history) + [msg];
  }

  lemma RecordsClose(p: Peer, tx: W.Tx)
    requires Records(p, tx)
    ensures Records(p.(isOpen := false), W.Step(tx, W.Close))
  {
    W.StepKeepsInv(tx, W.Close);
  }

  lemma RecordsCompletion(p: Peer, tx: W.Tx, k: nat, after: W.Tx)
    requires Records(p, tx) && W.Takes(tx, W.WriteCompletes(k), after)
    ensures Records(p.(isOpen := after.isOpen), after) && (after.isOpen ==> p.isOpen)
  {
    W.StepKeepsInv(tx, W.WriteCompletes(k));
  }

  /** `AsyncWrite` on every one of `conns`, in order. */
  method WriteToEach(conns: seq<PeerConnection>, msg: Message)
    requires Distinct(conns) && forall conn | conn in conns :: conn.ValidWriting()
    modifies conns
    ensures forall conn | conn in conns ::
              conn.ValidWriting() && W.Takes(old(conn.Writing()), W.AsyncWrite(msg), conn.Writing())
  {
    for i := 0 to |conns|
      invariant forall k | i <= k < |conns| :: unchanged(conns[k])
      invariant forall k | 0 <= k < i :: conns[k].ValidWriting()
      invariant forall k | 0 <= k < i :: W.Takes(old(conns[k].Writing()), W.AsyncWrite(msg), conns[k].Writing())
    {
      var backlog := conns[i].AsyncWrite(msg);
    }
  }

  /** Closes every one of `conns`. */
  method CloseEach(conns: seq<PeerConnection>)
    requires forall conn | conn in conns :: conn.ValidWriting()
    modifies conns
    ensures forall conn | conn in conns :: conn.ValidWriting() && conn.Writing() == W.Step(old(conn.Writing()), W.Close)
  {
    for i := 0 to |conns|
      invariant forall conn | conn in conns :: conn.ValidWriting()
      invariant forall conn | conn in conns ::
                  conn.Writing() == if conn in conns[..i] then W.Step(old(conn.Writing()), W.Close) else old(conn.Writing())
    {
      conns[i].Close();
      assert conns[..i + 1] == conns[..i] + [conns[i]];
    }
    assert conns[..|conns|] == conns;
  }

  class Server {
    var peerConnections: seq<PeerConnection>
    ghost var conns: map<PeerConnection, Peer>
    ghost var log: seq<Message>

    ghost function View(): B.Server<PeerConnection>
      reads this
    {
      B.Server(peerConnections, conns, log)
    }

    ghost predicate AllRecorded()
      reads this`conns, conns.Keys
    {
      forall conn | conn in conns :: Records(conns[conn], conn.Writing())
    }

    ghost predicate Valid()
      reads this, conns.Keys
    {
      Inv(View()) && AllRecorded()
    }

    constructor ()
      ensures Valid() && View() == Init()
    {
      peerConnections, conns, log := [], map[], [];
    }

    /** A connection has been accepted and reads. */
    ghost method Accepted(conn: PeerConnection)
      requires Valid() && conn !in conns && conn.Writing() == W.Init() && conn.ValidWriting()
      modifies this`conns
      ensures Valid() && Takes(old(View()), Accepts(conn), View())
    {
      ghost var p := Peer(true, false, 0, []);
      assert Inv(View().(conns := conns[conn := p])) by { B.StepKeepsInv(View(), Accepts(conn)); }
      assert Records(p, conn.Writing());
      conns := conns[conn := p];
    }

    /** The part of `OnAccept` that holds the lock. */
    method OnAccept(acceptedConn: PeerConnection)
      requires Valid() && acceptedConn in conns && !conns[acceptedConn].listed
      modifies this`peerConnections, this`conns
      ensures Valid() && Takes(old(View()), Lists(acceptedConn), View())
      ensures peerConnections == old(peerConnections) + [acceptedConn]
    {
      B.StepKeepsInv(View(), Lists(acceptedConn));
      peerConnections := peerConnections + [acceptedConn];
      conns := conns[acceptedConn := conns[acceptedConn].(listed := true, joined := |log|)];
    }

    /** Queues a copy of the message on every listed connection. */
    method SendMessageToAllPeers(msg: seq<byte>, nullTerminate: bool)
      requires Valid()
      modifies this`conns, this`log, peerConnections
      ensures Valid() && Takes(old(View()), Broadcast(Text(msg, nullTerminate)), View())
      ensures forall conn | conn in peerConnections ::
                W.Takes(old(conn.Writing()), W.AsyncWrite(Text(msg, nullTerminate)), conn.Writing())
    {
      ghost var message := Text(msg, nullTerminate);
      ghost var after := B.Step(View(), Broadcast(message));
      assert Inv(after) by { B.StepKeepsInv(View(), Broadcast(message)); }
      WriteToEach(peerConnections, Text(msg, nullTerminate));
      forall conn | conn in conns ensures Records(after.conns[conn], conn.Writing()) {
        if conn in peerConnections {
          assert conn.Writing() == W.Step(old(conn.Writing()), W.AsyncWrite(message));
          RecordsWrite(conns[conn], old(conn.Writing()), message, true);
        } else {
          assert conn.Writing() == old(conn.Writing());
        }
      }
      conns, log := after.conns, after.log;
    }

    /** The application writes to one connection. */
    method WriteTo(conn: PeerConnection, msg: Message) returns (backlog: nat)
      requires Valid() && conn in conns
      modifies this`conns, conn
      ensures Valid() && Takes(old(View()), WritesTo(conn, msg), View())
      ensures backlog == |conn.enqueued| - |conn.completed|
    {
      ghost var p := Enqueue(conns[conn], msg, false);
      assert Inv(View().(conns := conns[conn := p])) by { B.StepKeepsInv(View(), WritesTo(conn, msg)); }
      assert Records(p, W.Step(conn.Writing(), W.AsyncWrite(msg))) by {
        RecordsWrite(conns[conn], conn.Writing(), msg, false);
      }
      backlog := conn.AsyncWrite(msg);
      conns := conns[conn := p];
    }

    /** The service completes write `k` of a connection: an incomplete one closes its socket, and the
    next handled error takes it off the list. */
    method WriteCompletes(conn: PeerConnection, k: nat)
      requires Valid() && conn in conns && k < |conn.writes|
      modifies this`conns, conn
      ensures Valid() && W.Takes(old(conn.Writing()), W.WriteCompletes(k), conn.Writing())
      ensures View() == if conn.isOpen == old(conn.isOpen) then old(View()) else B.Step(old(View()), SocketCloses(conn))
    {
      conn.WriteCompletes(k);
      RecordsCompletion(conns[conn], old(conn.Writing()), k, conn.Writing());
      if conn.isOpen != old(conn.isOpen) {
        B.ClosingOne(View(), conn);
        conns := conns[conn := conns[conn].(isOpen := false)];
      }
    }

    /** A connection's socket is closed by the application. */
    method CloseSocket(conn: PeerConnection)
      requires Valid() && conn in conns
      modifies this`conns, conn`isOpen
      ensures Valid() && View() == B.Step(old(View()), SocketCloses(conn)) && !conn.isOpen
    {
      ghost var p := conns[conn].(isOpen := false);
      B.ClosingOne(View(), conn);
      assert Records(p, W.Step(conn.Writing(), W.Close)) by { RecordsClose(conns[conn], conn.Writing()); }
      conn.Close();
      conns := conns[conn := p];
    }

    /** On an error: closes the connection, then removes every closed one from the list. */
    method ErrorHandler(conn: PeerConnection, error: bool)
      requires Valid() && conn in conns
      modifies this, conn`isOpen
      ensures Valid() && View() == B.Step(old(View()), HandlesError(conn, error))
      ensures if error then !conn.isOpen && conn !in peerConnections
              else conn.isOpen == old(conn.isOpen) && peerConnections == old(peerConnections)
    {
      if error {
        CloseAndPurge(conn);
      }
    }

    method CloseAndPurge(conn: PeerConnection)
      requires Valid() && conn in conns
      modifies this, conn`isOpen
      ensures Valid() && View() == B.Step(old(View()), HandlesError(conn, true))
      ensures !conn.isOpen && conn !in peerConnections
    {
      ghost var before := View();
      assert conn !in B.Step(before, HandlesError(conn, true)).peers by { B.PurgeLeavesOpen(before, conn); }
      CloseSocket(conn);
      B.HandlingIsClosingAndPurging(before, conn, View());
      Purge();
    }

    method Purge()
      requires Valid()
      modifies this`peerConnections
      ensures Valid() && View() == old(View()).(peers := OpenOnly(old(peerConnections), conns))
    {
      B.ClosingKeepsInv(View(), {});
      assert Closed(conns, {}) == conns;
      RemoveClosed(conns);
    }

    /** `erase(remove_if(...))`: open connections move up into the holes, the tail is cut off.  The ghost
    argument tells which sockets are open at this moment. */
    method RemoveClosed(ghost sockets: map<PeerConnection, Peer>)
      requires forall conn | conn in peerConnections :: conn in sockets && sockets[conn].isOpen == conn.isOpen
      modifies this`peerConnections
      ensures peerConnections == OpenOnly(old(peerConnections), sockets)
    {
      ghost var before := peerConnections;
      var result := 0;
      for first := 0 to |peerConnections|
        invariant result <= first && |peerConnections| == |before|
        invariant peerConnections[..result] == OpenOnly(before[..first], sockets)
        invariant peerConnections[first..] == before[first..]
      {
        OpenOnlyOneMore(before[..first], before[first], sockets);
        assert before[..first + 1] == before[..first] + [before[first]];
        assert peerConnections[first] == peerConnections[first..][0] == before[first];
        assert peerConnections[first + 1..] == peerConnections[first..][1..];
        if peerConnections[first].isOpen {
          peerConnections := peerConnections[result := peerConnections[first]];
          result := result + 1;
        }
      }
      peerConnections := peerConnections[..result];
      assert before[..|before|] == before;
    }

    /** Closes every listed connection; the list itself is left alone. */
    method CloseAllPeerConnections()
      requires Valid()
      modifies this`conns, peerConnections
      ensures Valid() && Takes(old(View()), CloseAll, View())
    {
      ghost var after := B.Step(View(), CloseAll);
      assert Inv(after) by { B.StepKeepsInv(View(), CloseAll); }
      CloseEach(peerConnections);
      forall conn | conn in conns ensures Records(after.conns[conn], conn.Writing()) {
        if conn in peerConnections {
          RecordsClose(conns[conn], old(conn.Writing()));
        }
      }
      conns := after.conns;
    }
  }
}
