/** Taking received data out of a connection (IoServices/StreamConnection.cpp:90-118). */
module StreamConnection {
  import opened Bytes
  import opened IoCircularBuffer
  import R = ReceiveProtocol

  /** The application's handle; it refers weakly to the connection, which may be gone. */
  class Connection {
    const peer: CircularBuffer
    var expired: bool

    constructor (peer: CircularBuffer)
      ensures this.peer == peer && !expired
    {
      this.peer := peer;
      expired := false;
    }

    /** Copies `len` bytes to the caller's memory, then consumes them.  Both the source and the
    destination must hold `len` bytes, as `memcpy` demands. */
    method ConsumeInto(buf: array<byte>, len: nat) returns (thrown: bool)
      requires peer.Valid() && buf != peer.buffer.data
      requires !expired && peer.hasContext ==> len <= peer.buffer.size && len <= buf.Length
      modifies buf, peer, peer.buffer, peer.buffer.data
      ensures peer.Valid() && peer.buffer.data == old(peer.buffer.data)
      ensures thrown <==> expired || !old(peer.hasContext)
      ensures thrown ==> peer.View() == old(peer.View()) && buf[..] == old(buf[..])
      ensures !thrown ==> R.Takes(old(peer.View()), R.Consume(len), peer.View())
      ensures !thrown ==> buf[..] == old(peer.View().Live()[..len]) + old(buf[len..])
    {
      if expired || !peer.hasContext {
        return true;
      }
      for i := 0 to len
        invariant forall j | 0 <= j < i :: buf[j] == peer.buffer.data[j]
        invariant forall j | i <= j < buf.Length :: buf[j] == old(buf[j])
        invariant peer.buffer.data[..] == old(peer.buffer.data[..])
        modifies buf
      {
        buf[i] := peer.buffer.data[i];
      }
      assert buf[..] == old(peer.View().Live()[..len]) + old(buf[len..]);
      thrown := peer.Consume(len);
    }

    /** Appends `len` bytes to `dest`, then consumes them; at most what is available. */
    method ConsumeTo(dest: seq<byte>, len: nat) returns (out: seq<byte>, thrown: bool)
      requires peer.Valid() && (!expired && peer.hasContext ==> len <= peer.buffer.size)
      modifies peer, peer.buffer, peer.buffer.data
      ensures peer.Valid() && peer.buffer.data == old(peer.buffer.data)
      ensures thrown <==> expired || !old(peer.hasContext)
      ensures thrown ==> peer.View() == old(peer.View()) && out == dest
      ensures !thrown ==> R.Takes(old(peer.View()), R.Consume(len), peer.View())
      ensures !thrown ==> out == dest + old(peer.View().Live()[..len])
    {
      out := dest;
      if expired {
        return out, true;
      }
      var copied := peer.CopyTo(dest, len);
      if copied.None? {
        return out, true;
      }
      out := copied.value;
      thrown := peer.Consume(len);
    }
  }

  function Sum(lens: seq<nat>): nat {
    if lens == [] then 0 else lens[0] + Sum(lens[1..])
  }

  /** What a series of `ConsumeTo` calls inside one callback does: the buffer, and the bytes appended
  to the destination. */
  function Extract(s: R.Rx, lens: seq<nat>): (R.Rx, seq<byte>)
    requires s.size <= |s.memory| && s.hasContext && Sum(lens) <= s.size
    decreases |lens|
  {
    if lens == [] then (s, []) else
      var (t, rest) := Extract(R.Step(s, R.Consume(lens[0])), lens[1..]);
      (t, s.Live()[..lens[0]] + rest)
  }

  /** Taking `n` and then `m` bytes from the front is taking `n + m`. */
  lemma SplitAdds(consumed: seq<byte>, live: seq<byte>, n: nat, m: nat)
    requires n + m <= |live|
    ensures live[..n] + live[n..][..m] == live[..n + m]
    ensures live[n..][m..] == live[n + m..]
    ensures (consumed + live[..n]) + live[n..][..m] == consumed + live[..n + m]
  {
  }

  /** However an extraction is cut into calls, it appends the same bytes, leaves the same live bytes
  and counts the same bytes as consumed as a single call of the summed length. */
  lemma {:induction false} ExtractionSplits(s: R.Rx, lens: seq<nat>)
    requires R.Inv(s) && s.hasContext && Sum(lens) <= s.size
    ensures var (t, out) := Extract(s, lens);
            && out == s.Live()[..Sum(lens)]
            && t.Live() == s.Live()[Sum(lens)..]
            && t.consumed == s.consumed + s.Live()[..Sum(lens)]
            && |t.memory| == |s.memory| && t.hasContext
    decreases |lens|
  {
    if lens != [] {
      var n, rest := lens[0], Sum(lens[1..]);
      R.ConsumeTakesFront(s, n);
      R.ConsumeKeepsInv(s, n);
      var next := R.Step(s, R.Consume(n));
      ExtractionSplits(next, lens[1..]);
      SplitAdds(s.consumed, s.Live(), n, rest);
    }
  }

  /** In particular it comes to the same as one call. */
  lemma ExtractionIsOneCall(s: R.Rx, lens: seq<nat>)
    requires R.Inv(s) && s.hasContext && Sum(lens) <= s.size
    ensures var (t, out) := Extract(s, lens);
            var (one, whole) := Extract(s, [Sum(lens)]);
            out == whole && t.Live() == one.Live() && t.consumed == one.consumed && |t.memory| == |one.memory|
  {
    assert Sum([Sum(lens)]) == Sum(lens) + Sum([Sum(lens)][1..]) == Sum(lens);
    ExtractionSplits(s, lens);
    ExtractionSplits(s, [Sum(lens)]);
  }
}
