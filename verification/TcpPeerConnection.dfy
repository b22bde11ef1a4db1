/** One TCP connection (IoServices/TcpPeerConnection.cpp): the serialised write queue, the receive
buffer, and the callbacks between the I/O service and the application.  The writing methods are steps
of `WriteProtocol`, the reading ones steps of `CallbackProtocol`. */
module TcpPeerConnection {
  import opened Bytes
  import opened IoBufferWrapper
  import opened IoCircularBuffer
  import R = ReceiveProtocol
  import W = WriteProtocol
  import C = CallbackProtocol

  class PeerConnection {
    const readBuffer: CircularBuffer
    var phase: C.Phase
    var mOutQueue: seq<Message>
    var writes: seq<W.Flight>  // held by the I/O service
    var isOpen: bool
    ghost const workers: nat
    ghost var trace: seq<C.Notice>
    ghost var enqueued: seq<Message>
    ghost var completed: seq<Message>
    ghost var wire: seq<byte>
    ghost var launched: nat

    ghost function Writing(): W.Tx
      reads this
    {
      W.Tx(mOutQueue, writes, isOpen, enqueued, completed, wire, launched)
    }

    ghost function Reading(): C.Conn
      reads this, readBuffer, readBuffer.buffer, readBuffer.buffer.data
    {
      C.Conn(phase, readBuffer.View(), workers, trace)
    }

    ghost predicate ValidWriting()
      reads this
    {
      W.Inv(Writing())
    }

    ghost predicate ValidReading()
      reads this, readBuffer, readBuffer.buffer, readBuffer.buffer.data
    {
      readBuffer.Valid() && C.Inv(Reading())
    }

    constructor (maxSize: nat, ghost workers: nat)
      ensures ValidWriting() && Writing() == W.Init()
      ensures ValidReading() && Reading() == C.Init(maxSize, workers)
      ensures fresh(readBuffer) && fresh(readBuffer.buffer) && fresh(readBuffer.buffer.data)
    {
      readBuffer := new CircularBuffer(maxSize);
      phase, mOutQueue, writes, isOpen := C.Idle, [], [], true;
      this.workers := workers;
      trace, enqueued, completed, wire, launched := [], [], [], [], 0;
    }

    /** Queues a message and returns the backlog; launches it when it is the only one. */
    method AsyncWrite(msg: Message) returns (backlog: nat)
      requires ValidWriting()
      modifies this`mOutQueue, this`writes, this`enqueued, this`launched
      ensures ValidWriting() && W.Takes(old(Writing()), W.AsyncWrite(msg), Writing())
      ensures backlog == |enqueued| - |completed|
    {
      W.StepKeepsInv(Writing(), W.AsyncWrite(msg));
      mOutQueue := mOutQueue + [msg];
      enqueued := enqueued + [msg];
      if |mOutQueue| > 1 {
        return |mOutQueue|;
      }
      LaunchWrite();
      return |mOutQueue|;
    }

    method LaunchWrite()
      requires mOutQueue != []
      modifies this`writes, this`launched
      ensures Writing() == W.LaunchWrite(old(Writing()))
    {
      writes := writes + [W.Flight(mOutQueue[0], 0)];
      launched := launched + 1;
    }

    /** The service puts `n` more bytes of write `k` on the wire. */
    method Transfer(k: nat, n: nat)
      requires ValidWriting() && W.Enabled(Writing(), W.Transfer(k, n))
      modifies this`writes, this`wire
      ensures ValidWriting() && W.Takes(old(Writing()), W.Transfer(k, n), Writing())
    {
      W.StepKeepsInv(Writing(), W.Transfer(k, n));
      var f := writes[k];
      wire := wire + Encode(f.msg)[f.sent..f.sent + n];
      writes := writes[k := f.(sent := f.sent + n)];
    }

    /** The service completes write `k`.  If the front message is entirely on the wire, it is completed;
    otherwise the socket is closed, and no continuation writes another byte. */
    method WriteCompletes(k: nat)
      requires ValidWriting() && k < |writes|
      modifies this`mOutQueue, this`writes, this`isOpen, this`completed, this`launched
      ensures ValidWriting() && W.Takes(old(Writing()), W.WriteCompletes(k), Writing())
      ensures if wire == Stream(old(completed) + [old(mOutQueue)[0]])
              then wire == Stream(completed) && completed == old(completed) + [old(mOutQueue)[0]] && isOpen == old(isOpen)
              else completed == old(completed) && W.Silent(Writing())
    {
      W.StepKeepsInv(Writing(), W.WriteCompletes(k));
      W.FreezeExactly(Writing(), W.WriteCompletes(k));
      var f := writes[k];
      writes := writes[..k] + writes[k + 1..];
      WriteHandler(Wrap(f.msg), f.sent);
      W.SilentExactly(Writing());
    }

    /** An incomplete write closes the socket and stops; a complete one is popped and the next one
    launched. */
    method WriteHandler(bufWrapper: Wrapper, written: nat)
      requires mOutQueue != []
      modifies this`mOutQueue, this`writes, this`isOpen, this`completed, this`launched
      ensures written != bufWrapper.BoostSize() ==> Writing() == old(Writing()).(isOpen := false)
      ensures written == bufWrapper.BoostSize() ==>
                var popped := old(Writing()).(queue := old(mOutQueue)[1..], completed := old(completed) + [old(mOutQueue)[0]]);
                Writing() == if popped.queue == [] then popped else W.LaunchWrite(popped)
    {
      if written != bufWrapper.BoostSize() {
        isOpen := false;
        return;
      }
      completed := completed + [mOutQueue[0]];
      mOutQueue := mOutQueue[1..];
      if |mOutQueue| == 0 {
        return;
      }
      LaunchWrite();
    }

    /** No continuation puts another byte on the wire. */
    method Close()
      requires ValidWriting()
      modifies this`isOpen
      ensures ValidWriting() && W.Takes(old(Writing()), W.Close, Writing())
      ensures W.Silent(Writing())
    {
      W.StepKeepsInv(Writing(), W.Close);
      isOpen := false;
      W.SilentExactly(Writing());
    }

    method AsyncConnect()
      requires ValidReading() && phase == C.Idle
      modifies this`phase
      ensures ValidReading() && C.Takes(old(Reading()), C.AsyncConnect, Reading())
    {
      C.StepKeepsInv(Reading(), C.AsyncConnect);
      phase := C.Connecting;
    }

    /** The connect completed; on success the connect callback given by the services layer starts the
    chained read, which may throw. */
    method ConnectHandler(failed: bool, chunk: nat, granted: nat)
      requires ValidReading() && phase == C.Connecting && chunk > 0 && granted >= readBuffer.buffer.size + chunk
      modifies this`phase, this`trace, readBuffer, readBuffer.buffer
      ensures ValidReading()
      ensures readBuffer.buffer.data == old(readBuffer.buffer.data) || fresh(readBuffer.buffer.data)
      ensures var e := if failed then C.ConnectFails else C.ConnectSucceeds(chunk, readBuffer.buffer.data[..]);
              C.Takes(old(Reading()), e, Reading())
    {
      ghost var before := Reading();
      if failed {
        phase := C.Failed;
        trace := trace + [C.ConnectError];
        C.StepKeepsInv(before, C.ConnectFails);
        return;
      }
      var thrown := readBuffer.BeginChainedRead(chunk, true, granted);
      phase := if thrown then C.Aborted else C.Reading;
      C.StepKeepsInv(before, C.ConnectSucceeds(chunk, readBuffer.buffer.data[..]));
    }

    /** The application is told that it is connected, which is in order exactly if what it heard before
    was. */
    method NotifyConnected()
      requires ValidReading() && phase == C.Reading
      modifies this`phase, this`trace
      ensures ValidReading() && C.Takes(old(Reading()), C.ConnectCallback, Reading())
      ensures C.After(trace) == C.Bad <==> C.After(old(trace)) == C.Bad
    {
      ghost var before := Reading();
      C.StepKeepsInv(before, C.ConnectCallback);
      phase := C.Running;
      trace := trace + [C.Connected];
      assert readBuffer.View() == before.rx && readBuffer.Valid();
      assert Reading() == before.(phase := C.Running, trace := before.trace + [C.Connected]);
    }

    /** The read handler given to the socket: an error or an empty read ends the chain and is reported;
    otherwise the buffer's handler announces the data.  The notification is out of order exactly if the
    connect callback has not run, or an earlier one was. */
    method ReadHandler(k: nat, error: bool, bytes: seq<byte>)
      requires ValidReading() && k < |readBuffer.outstanding| && |bytes| <= readBuffer.outstanding[k].window.len
      requires phase == C.Running || (phase == C.Reading && workers > 0)
      modifies this`trace, readBuffer, readBuffer.buffer, readBuffer.buffer.data
      ensures ValidReading() && readBuffer.buffer.data == old(readBuffer.buffer.data)
      ensures var e := C.Read(if bytes == [] || error then R.ReadFails(k) else R.ReadCompletes(k, bytes));
              C.Takes(old(Reading()), e, Reading())
      ensures C.Notifies(old(Reading()), Reading(), bytes == [] || error)
    {
      if |bytes| == 0 || error {
        ReportError(k);
      } else {
        AnnounceData(k, bytes);
      }
    }

    method ReportError(k: nat)
      requires ValidReading() && k < |readBuffer.outstanding|
      requires phase == C.Running || (phase == C.Reading && workers > 0)
      modifies this`trace, readBuffer
      ensures ValidReading() && C.Takes(old(Reading()), C.Read(R.ReadFails(k)), Reading())
      ensures C.Notifies(old(Reading()), Reading(), true)
    {
      C.ReportsFailure(Reading(), k);
      C.StepKeepsInv(Reading(), C.Read(R.ReadFails(k)));
      readBuffer.ReadFails(k);
      trace := trace + [C.IoError];
    }

    method AnnounceData(k: nat, bytes: seq<byte>)
      requires ValidReading() && k < |readBuffer.outstanding| && 0 < |bytes| <= readBuffer.outstanding[k].window.len
      requires phase == C.Running || (phase == C.Reading && workers > 0)
      modifies this`trace, readBuffer, readBuffer.buffer, readBuffer.buffer.data
      ensures ValidReading() && readBuffer.buffer.data == old(readBuffer.buffer.data)
      ensures C.Takes(old(Reading()), C.Read(R.ReadCompletes(k, bytes)), Reading())
      ensures C.Notifies(old(Reading()), Reading(), false)
    {
      C.AnnouncesAvailable(Reading(), k, bytes);
      C.StepKeepsInv(Reading(), C.Read(R.ReadCompletes(k, bytes)));
      var available := readBuffer.ReadCompletes(k, bytes);
      trace := trace + [C.DataBegins(available)];
    }

    /** The application consumes from its data callback. */
    method Consume(len: nat) returns (thrown: bool)
      requires ValidReading() && (phase == C.Running || (phase == C.Reading && workers > 0))
      modifies readBuffer, readBuffer.buffer, readBuffer.buffer.data
      ensures ValidReading() && readBuffer.buffer.data == old(readBuffer.buffer.data)
      ensures C.Takes(old(Reading()), C.Read(R.Consume(len)), Reading())
      ensures thrown <==> !old(readBuffer.hasContext) || len > old(readBuffer.buffer.size)
    {
      C.StepKeepsInv(Reading(), C.Read(R.Consume(len)));
      thrown := readBuffer.Consume(len);
    }

    /** The data callback returned: the application hears nothing more of this read, and the next read
    is outstanding unless `max_size` leaves no room. */
    method CallbackReturns(granted: nat) returns (thrown: bool)
      requires ValidReading() && InCallback() && granted >= readBuffer.buffer.size + readBuffer.chunkSize
      modifies this`trace, readBuffer, readBuffer.buffer
      ensures ValidReading()
      ensures readBuffer.buffer.data == old(readBuffer.buffer.data) || fresh(readBuffer.buffer.data)
      ensures C.Takes(old(Reading()), C.Read(R.CallbackReturns(readBuffer.buffer.data[..])), Reading())
      ensures C.After(trace) == C.Bad <==> C.After(old(trace)) == C.Bad
      ensures if thrown then R.Stalled(readBuffer.View()) else readBuffer.outstanding != []
    {
      ghost var before := Reading();
      thrown := readBuffer.CallbackReturns(granted);
      trace := trace + [C.DataEnds];
      C.StepKeepsInv(before, C.Read(R.CallbackReturns(readBuffer.buffer.data[..])));
    }

    /** The data callback threw: the connection never reads again, nor reports anything. */
    method CallbackUnwinds()
      requires ValidReading() && InCallback()
      modifies this`trace, readBuffer`hasContext
      ensures ValidReading() && C.Takes(old(Reading()), C.Read(R.CallbackThrows), Reading())
      ensures R.Stalled(readBuffer.View())
      ensures C.After(trace) == C.Bad <==> C.After(old(trace)) == C.Bad
    {
      ghost var before := Reading();
      C.StepKeepsInv(before, C.Read(R.CallbackThrows));
      readBuffer.CallbackUnwinds();
      trace := trace + [C.DataThrows];
    }

    /** The application's data callback is running. */
    ghost predicate InCallback()
      reads this, readBuffer
    {
      readBuffer.hasContext && (phase == C.Running || (phase == C.Reading && workers > 0))
    }
  }
}
