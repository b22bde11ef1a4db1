/** The receive buffer itself (IoServices/IoCircularBuffer.cpp): an object over a raw allocation that
the socket writes into while a read is outstanding.  Every method is proved to be one step of
`ReceiveProtocol`, so everything proved of that machine's runs holds of the object. */
module IoCircularBuffer {
  import opened Bytes
  import opened RawVector
  import opened ReceiveProtocol
  import P = ReceiveProtocol

  /** A read held by the I/O service: its window, and the raw memory the window points into. */
  datatype Outstanding = Outstanding(window: Window, memory: array<byte>)

  class CircularBuffer {
    const buffer: Vector
    const maxSize: nat
    var chunkSize: nat
    var notifyInstalled: bool
    var shouldRead: bool
    var hasContext: bool
    var outstanding: seq<Outstanding>
    var alloc: nat  // bookkeeping only: names the current allocation
    ghost var received: seq<byte>
    ghost var consumed: seq<byte>

    ghost function View(): Rx
      reads this, buffer, buffer.data
    {
      Rx(buffer.data[..], buffer.size, alloc, maxSize, notifyInstalled, chunkSize, shouldRead, hasContext,
         seq(|outstanding|, i requires 0 <= i < |outstanding| reads this => outstanding[i].window),
         received, consumed)
    }

    /** The machine's invariant, and no outstanding read points into a discarded allocation. */
    ghost predicate Valid()
      reads this, buffer, buffer.data
    {
      && buffer.Valid()
      && Inv(View())
      && forall o | o in outstanding :: o.memory == buffer.data
    }

    constructor (maxSize: nat)
      ensures Valid() && View() == Init(maxSize)
      ensures fresh(buffer) && fresh(buffer.data)
    {
      buffer := new Vector();
      this.maxSize := maxSize;
      chunkSize, notifyInstalled, shouldRead, hasContext := 0, false, false, false;
      outstanding, alloc, received, consumed := [], 0, [], [];
    }

    /** `granted` is the capacity the library would allocate. */
    method BeginChainedRead(chunk: nat, immediate: bool, granted: nat) returns (thrown: bool)
      requires Valid() && chunk > 0 && granted >= buffer.size + chunk
      modifies this, buffer
      ensures Valid() && (buffer.data == old(buffer.data) || fresh(buffer.data))
      ensures Takes(old(View()), P.BeginChainedRead(chunk, immediate, buffer.data[..]), View())
      ensures thrown <==> old(notifyInstalled) || (immediate && Exceeds(View()))
      ensures old(notifyInstalled) ==> View() == old(View())
      ensures !old(notifyInstalled) ==>
                && chunkSize == chunk
                && if !immediate then Off(View()) else if thrown then Stalled(View()) else outstanding != []
    {
      ghost var before := View();
      if notifyInstalled {
        return true;
      }
      notifyInstalled, chunkSize, shouldRead := true, chunk, immediate;
      thrown := false;
      if immediate {
        thrown := ReadSome(granted);
      }
      StepKeepsInv(before, P.BeginChainedRead(chunk, immediate, buffer.data[..]));
    }

    method BeginReadSome(granted: nat) returns (thrown: bool)
      requires Valid() && notifyInstalled && granted >= buffer.size + chunkSize
      modifies this, buffer
      ensures Valid() && (buffer.data == old(buffer.data) || fresh(buffer.data))
      ensures Takes(old(View()), P.BeginReadSome(buffer.data[..]), View())
      ensures thrown <==> !old(shouldRead) && Exceeds(View())
      ensures old(Off(View())) ==> (outstanding != [] <==> buffer.size + chunkSize < maxSize)
    {
      ghost var before := View();
      if shouldRead {
        return false;
      }
      shouldRead := true;
      thrown := ReadSome(granted);
      StepKeepsInv(before, P.BeginReadSome(buffer.data[..]));
    }

    method EndReadSome()
      modifies this`shouldRead
      ensures !shouldRead
    {
      shouldRead := false;
    }

    /** Makes room for one more chunk and issues a read into it. */
    method ReadSome(granted: nat) returns (thrown: bool)
      requires buffer.Valid() && outstanding == [] && granted >= buffer.size + chunkSize
      modifies this`outstanding, this`alloc, buffer
      ensures buffer.Valid() && (buffer.data == old(buffer.data) || fresh(buffer.data))
      ensures Grants(old(View()), buffer.data[..])
      ensures View() == P.ReadSome(old(View()), buffer.data[..])
      ensures forall o | o in outstanding :: o.memory == buffer.data
      ensures thrown <==> old(Exceeds(View()))
    {
      var requiredCapacity := buffer.size + chunkSize;
      if requiredCapacity >= maxSize {
        return true;
      }
      if requiredCapacity > buffer.data.Length {
        buffer.Reserve(requiredCapacity, granted);
        alloc := alloc + 1;
        assert buffer.data[..] == old(buffer.data[..buffer.size]) + buffer.data[..][buffer.size..] by {
          assert buffer.data[..buffer.size] == old(buffer.data[..buffer.size]);
        }
      }
      outstanding := outstanding + [Outstanding(Window(alloc, buffer.size, chunkSize), buffer.data)];
      return false;
    }

    /** The socket's raw write. */
    static method SocketWrites(memory: array<byte>, start: nat, bytes: seq<byte>)
      requires start + |bytes| <= memory.Length
      modifies memory
      ensures memory[..] == old(memory[..start]) + bytes + old(memory[start + |bytes|..])
    {
      for i := 0 to |bytes|
        invariant forall j | 0 <= j < i :: memory[start + j] == bytes[j]
        invariant forall j | 0 <= j < memory.Length && !(start <= j < start + i) :: memory[j] == old(memory[j])
      {
        memory[start + i] := bytes[i];
      }
    }

    /** `ReadSomeHandler` up to the notification callback, which is told how much is available: the
    bytes already lying behind the live ones become live. */
    method ReadSomeHandler(bytesRead: nat) returns (available: nat)
      requires buffer.Valid() && buffer.size + bytesRead <= buffer.data.Length
      modifies this`hasContext, buffer, buffer.data
      ensures buffer.data == old(buffer.data) && buffer.data[..] == old(buffer.data[..])
      ensures buffer.size == old(buffer.size) + bytesRead
      ensures hasContext == (bytesRead != 0) && available == if bytesRead == 0 then 0 else buffer.size
    {
      hasContext := true;
      buffer.Resize(buffer.size + bytesRead, buffer.data.Length);
      if bytesRead == 0 {
        hasContext := false;
        return 0;
      }
      available := buffer.size;
    }

    /** The socket writes `bytes` through the raw pointer of read `k`. */
    method FillWindow(k: nat, bytes: seq<byte>)
      requires Valid() && k < |outstanding| && |bytes| <= outstanding[k].window.len
      modifies buffer.data
      ensures View() == old(View()).(memory := Written(old(View()), old(View()).pending[k], bytes))
    {
      ghost var before := View();
      var read := outstanding[k];
      assert read.window == before.pending[k];
      SocketWrites(read.memory, read.window.start, bytes);
    }

    /** Read `k` completes: the socket has written `bytes`, and the handler runs. */
    method ReadCompletes(k: nat, bytes: seq<byte>) returns (available: nat)
      requires Valid() && k < |outstanding| && |bytes| <= outstanding[k].window.len
      modifies this, buffer, buffer.data
      ensures Valid() && buffer.data == old(buffer.data)
      ensures Takes(old(View()), P.ReadCompletes(k, bytes), View())
      ensures available == if bytes == [] then 0 else buffer.size
    {
      ghost var before := View();
      assert before.pending[k] == outstanding[k].window;
      CompletionFits(before, k, bytes);
      CompletionKeepsInv(before, k, bytes);
      FillWindow(k, bytes);
      outstanding := outstanding[..k] + outstanding[k + 1..];
      received := received + bytes;
      assert View() == before.(memory := Written(before, before.pending[k], bytes),
                               pending := Without(before.pending, k), received := before.received + bytes);
      available := ReadSomeHandler(|bytes|);
    }

    /** The rest of `ReadSomeHandler`, when the callback returned. */
    method CallbackReturns(granted: nat) returns (thrown: bool)
      requires Valid() && hasContext && granted >= buffer.size + chunkSize
      modifies this, buffer
      ensures Valid() && (buffer.data == old(buffer.data) || fresh(buffer.data))
      ensures Takes(old(View()), P.CallbackReturns(buffer.data[..]), View())
      ensures thrown <==> Exceeds(View())
    {
      ghost var before := View();
      hasContext := false;
      thrown := false;
      if shouldRead {
        thrown := ReadSome(granted);
      }
      StepKeepsInv(before, P.CallbackReturns(buffer.data[..]));
    }

    /** The rest of `ReadSomeHandler`, when the callback threw: only the guard's destructor runs. */
    method CallbackUnwinds()
      requires Valid() && hasContext
      modifies this`hasContext
      ensures Valid() && Takes(old(View()), P.CallbackThrows, View())
    {
      ghost var before := View();
      hasContext := false;
      StepKeepsInv(before, CallbackThrows);
    }

    /** A completion with an error, or without bytes, ends the chain. */
    method ReadFails(k: nat)
      requires Valid() && k < |outstanding|
      modifies this
      ensures Valid() && Takes(old(View()), P.ReadFails(k), View())
    {
      ghost var before := View();
      outstanding := outstanding[..k] + outstanding[k + 1..];
      EndReadSome();
      assert View() == Step(before, P.ReadFails(k));
      StepKeepsInv(before, P.ReadFails(k));
    }

    method Consume(len: nat) returns (thrown: bool)
      requires Valid()
      modifies this, buffer, buffer.data
      ensures Valid() && buffer.data == old(buffer.data)
      ensures Takes(old(View()), P.Consume(len), View())
      ensures thrown <==> !old(hasContext) || len > old(buffer.size)
      ensures consumed == old(consumed) + if thrown then [] else old(View().Live()[..len])
      ensures thrown ==> View() == old(View())
    {
      ghost var before := View();
      ConsumeKeepsInv(before, len);
      if !hasContext {
        return true;
      }
      if len > buffer.size {
        return true;
      }
      consumed := consumed + buffer.data[..len];
      if len == buffer.size {
        buffer.Resize(0, 0);
        assert before.memory[len..before.size] + before.memory[before.size - len..] == before.memory;
      } else {
        buffer.EraseFront(len);
      }
      assert View() == Step(before, P.Consume(len));
      return false;
    }

    /** Appends the first `len` live bytes to `dest`; the callers demand `len` to be available. */
    method CopyTo(dest: seq<byte>, len: nat) returns (result: Option<seq<byte>>)
      requires Valid() && (hasContext ==> len <= buffer.size)
      ensures result == if hasContext then Some(dest + View().Live()[..len]) else None
    {
      if !hasContext {
        return None;
      }
      var out := dest;
      for i := 0 to len
        invariant out == dest + buffer.data[..i]
      {
        out := out + [buffer.data[i]];
        assert buffer.data[..i + 1] == buffer.data[..i] + [buffer.data[i]];
      }
      assert View().Live()[..len] == buffer.data[..len];
      return Some(out);
    }
  }
}
