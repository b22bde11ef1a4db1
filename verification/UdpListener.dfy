/** A UDP listener's receiving side (IoServices/UdpListener.cpp) over the receive buffer object; every
method is a step, or the few steps, of `UdpProtocol`. */
module UdpListener {
  import opened Bytes
  import opened IoCircularBuffer
  import opened UdpProtocol
  import U = UdpProtocol
  import R = ReceiveProtocol

  class Listener {
    const readBuffer: CircularBuffer
    var asyncConnected: bool
    var asyncReceivedFrom: bool
    var peerEndPoint: EndPoint
    var modes: seq<Mode>  // of the receives held by the I/O service
    ghost var overwrites: nat

    ghost function View(): Udp
      reads this, readBuffer, readBuffer.buffer, readBuffer.buffer.data
    {
      Udp(readBuffer.View(), modes, asyncConnected, asyncReceivedFrom, peerEndPoint, overwrites)
    }

    ghost predicate Valid()
      reads this, readBuffer, readBuffer.buffer, readBuffer.buffer.data
    {
      readBuffer.Valid() && U.Inv(View())
    }

    ghost predicate Does(before: Udp, e: U.Event)
      reads this, readBuffer, readBuffer.buffer, readBuffer.buffer.data
    {
      U.Enabled(before, e) && View() == U.Step(before, e)
    }

    constructor (maxSize: nat)
      ensures Valid() && View() == U.Init(maxSize)
      ensures fresh(readBuffer) && fresh(readBuffer.buffer) && fresh(readBuffer.buffer.data)
    {
      readBuffer := new CircularBuffer(maxSize);
      asyncConnected, asyncReceivedFrom, peerEndPoint, modes, overwrites := false, false, 0, [], 0;
    }

    /** The buffer's read callback: chooses the mode of the receive just asked for. */
    method IssueReceive()
      modifies this`modes, this`asyncReceivedFrom
      ensures modes == old(modes) + [if asyncConnected then Receive else ReceiveFrom]
      ensures asyncReceivedFrom == (old(asyncReceivedFrom) || !asyncConnected)
    {
      if asyncConnected {
        modes := modes + [Receive];
      } else {
        modes := modes + [ReceiveFrom];
        asyncReceivedFrom := true;
      }
    }

    method SetupChainedRead(size: nat, immediate: bool, granted: nat)
      requires Valid() && size > 0 && granted >= readBuffer.buffer.size + size
      modifies this`modes, this`asyncReceivedFrom, readBuffer, readBuffer.buffer
      ensures Valid() && (readBuffer.buffer.data == old(readBuffer.buffer.data) || fresh(readBuffer.buffer.data))
      ensures Does(old(View()), U.SetupChainedRead(size, immediate, readBuffer.buffer.data[..]))
      ensures !old(readBuffer.notifyInstalled) && !immediate ==> modes == [] && R.Off(readBuffer.View())
    {
      ghost var before := View();
      var thrown := readBuffer.BeginChainedRead(size, immediate, granted);
      if |readBuffer.outstanding| > |modes| {
        IssueReceive();
      }
      U.StepKeepsInv(before, U.SetupChainedRead(size, immediate, readBuffer.buffer.data[..]));
    }

    method LaunchRead(granted: nat)
      requires Valid() && readBuffer.notifyInstalled && granted >= readBuffer.buffer.size + readBuffer.chunkSize
      modifies this`modes, this`asyncReceivedFrom, readBuffer, readBuffer.buffer
      ensures Valid() && (readBuffer.buffer.data == old(readBuffer.buffer.data) || fresh(readBuffer.buffer.data))
      ensures Does(old(View()), U.LaunchRead(readBuffer.buffer.data[..]))
      ensures old(asyncConnected) ==> Unconnected(View()) == old(Unconnected(View()))
      ensures old(R.Off(readBuffer.View())) ==>
                (modes != [] <==> readBuffer.buffer.size + readBuffer.chunkSize < readBuffer.maxSize)
    {
      ghost var before := View();
      var thrown := readBuffer.BeginReadSome(granted);
      if |readBuffer.outstanding| > |modes| {
        IssueReceive();
      }
      U.StepKeepsInv(before, U.LaunchRead(readBuffer.buffer.data[..]));
    }

    /** A successful connect: from now on receives are connected ones; the destination is stored; and
    reading starts if it has not.  The destination is then final, until the next connect, exactly when no
    receive was outstanding in the unconnected mode. */
    method ConnectHandler(dest: EndPoint, granted: nat)
      requires Valid() && readBuffer.notifyInstalled && granted >= readBuffer.buffer.size + readBuffer.chunkSize
      modifies this, readBuffer, readBuffer.buffer
      ensures Valid() && (readBuffer.buffer.data == old(readBuffer.buffer.data) || fresh(readBuffer.buffer.data))
      ensures var stored := U.Step(U.Step(old(View()), ConnectStores), ConnectAssigns(dest));
              Does(stored, U.LaunchRead(readBuffer.buffer.data[..]))
      ensures asyncConnected && peerEndPoint == dest
      ensures (CanChange(View()) <==> old(Unconnected(View())) == 1)
    {
      U.StepKeepsInv(View(), ConnectStores);
      asyncConnected := true;
      U.StepKeepsInv(View(), ConnectAssigns(dest));
      peerEndPoint := dest;
      LaunchRead(granted);
      EndPointChangesExactly(View());
    }

    /** A receive is over: in the unconnected mode the socket has written its source. */
    method FinishReceive(k: nat, source: EndPoint)
      requires k < |modes|
      modifies this`modes, this`peerEndPoint, this`overwrites
      ensures View() == U.Over(old(View()), k, source)
    {
      if modes[k].ReceiveFrom? {
        peerEndPoint := source;
        overwrites := overwrites + 1;
      }
      modes := modes[..k] + modes[k + 1..];
    }

    /** The receive handler given to the socket. */
    method ReceiveHandler(k: nat, error: bool, bytes: seq<byte>, source: EndPoint)
      requires Valid() && k < |readBuffer.outstanding| && |bytes| <= readBuffer.outstanding[k].window.len
      modifies this`modes, this`peerEndPoint, this`overwrites, readBuffer, readBuffer.buffer, readBuffer.buffer.data
      ensures Valid() && readBuffer.buffer.data == old(readBuffer.buffer.data)
      ensures Does(old(View()), if bytes == [] || error then U.ReceiveFails(k, source) else U.Receives(k, bytes, source))
    {
      if |bytes| == 0 || error {
        EndReceiving(k, source);
        return;
      }
      AnnounceDatagram(k, bytes, source);
    }

    method EndReceiving(k: nat, source: EndPoint)
      requires Valid() && k < |readBuffer.outstanding|
      modifies this`modes, this`peerEndPoint, this`overwrites, readBuffer
      ensures Valid() && Does(old(View()), U.ReceiveFails(k, source))
    {
      U.StepKeepsInv(View(), U.ReceiveFails(k, source));
      FinishReceive(k, source);
      readBuffer.ReadFails(k);
    }

    method AnnounceDatagram(k: nat, bytes: seq<byte>, source: EndPoint)
      requires Valid() && k < |readBuffer.outstanding| && 0 < |bytes| <= readBuffer.outstanding[k].window.len
      modifies this`modes, this`peerEndPoint, this`overwrites, readBuffer, readBuffer.buffer, readBuffer.buffer.data
      ensures Valid() && readBuffer.buffer.data == old(readBuffer.buffer.data)
      ensures Does(old(View()), U.Receives(k, bytes, source))
    {
      U.StepKeepsInv(View(), U.Receives(k, bytes, source));
      FinishReceive(k, source);
      var available := readBuffer.ReadCompletes(k, bytes);
    }

    /** The application's callback returned: the next receive is issued in the mode of the moment. */
    method CallbackReturns(granted: nat)
      requires Valid() && readBuffer.hasContext && granted >= readBuffer.buffer.size + readBuffer.chunkSize
      modifies this`modes, this`asyncReceivedFrom, readBuffer, readBuffer.buffer
      ensures Valid() && (readBuffer.buffer.data == old(readBuffer.buffer.data) || fresh(readBuffer.buffer.data))
      ensures Does(old(View()), U.CallbackReturns(readBuffer.buffer.data[..]))
    {
      ghost var before := View();
      var thrown := readBuffer.CallbackReturns(granted);
      if |readBuffer.outstanding| > |modes| {
        IssueReceive();
      }
      U.StepKeepsInv(before, U.CallbackReturns(readBuffer.buffer.data[..]));
    }
  }
}
