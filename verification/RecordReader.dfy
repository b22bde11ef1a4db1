/** The server application that takes fixed-size records out of the stream (HelloAsio/main.cpp:49-70):
one notification per read, and at most one record taken per notification. */
module RecordReader {
  import opened Bytes
  import opened IoCircularBuffer
  import opened StreamConnection
  import R = ReceiveProtocol

  const AMOUNT_FOR_CONSUME: nat := 25
  const CHUNK_SIZE: nat := 12

  datatype Reader = Reader(live: seq<byte>, records: seq<seq<byte>>)

  const NOTHING_READ := Reader([], [])

  /** One notification, after `bytes` more arrived. */
  function Notify(A: nat, r: Reader, bytes: seq<byte>): Reader
    requires A > 0
  {
    var available := r.live + bytes;
    if |available| >= A then Reader(available[A..], r.records + [available[..A]]) else Reader(available, r.records)
  }

  function Feed(A: nat, r: Reader, chunks: seq<seq<byte>>): Reader
    requires A > 0
    decreases |chunks|
  {
    if chunks == [] then r else Feed(A, Notify(A, r, chunks[0]), chunks[1..])
  }

  /** No chunk is larger than `c`. */
  predicate Segmented(chunks: seq<seq<byte>>, c: nat) {
    forall chunk | chunk in chunks :: |chunk| <= c
  }

  /** The stream cut into whole records, and what remains: a definition on the stream alone. */
  function Cut(A: nat, stream: seq<byte>): Reader
    requires A > 0
    decreases |stream|
  {
    if |stream| < A then Reader(stream, []) else
      var rest := Cut(A, stream[A..]);
      Reader(rest.live, [stream[..A]] + rest.records)
  }

  lemma SmallMultiple(d: int, A: int)
    requires A > 0 && -A < d * A < A
    ensures d == 0
  {
    assert d >= 1 ==> d * A >= A;
    assert d <= -1 ==> d * A <= -A;
  }

  lemma QuotientIs(A: nat, total: nat, q: nat, rest: nat)
    requires A > 0 && total == q * A + rest && rest < A
    ensures total / A == q && total % A == rest
  {
    var d := total / A - q;
    assert d * A == rest - total % A;
    SmallMultiple(d, A);
  }

  lemma OneRecordLess(A: nat, total: nat)
    requires 0 < A <= total
    ensures total / A == (total - A) / A + 1 && total % A == (total - A) % A
  {
    var q, rest := (total - A) / A, (total - A) % A;
    assert (q + 1) * A == q * A + A;
    QuotientIs(A, total, q + 1, rest);
  }

  /** The reference in closed form: the number of records, the size of the remainder. */
  lemma {:induction false} CutCounts(A: nat, stream: seq<byte>)
    requires A > 0
    ensures |Cut(A, stream).records| == |stream| / A
    ensures |Cut(A, stream).live| == |stream| % A
    decreases |stream|
  {
    if |stream| < A {
      QuotientIs(A, |stream|, 0, |stream|);
    } else {
      CutCounts(A, stream[A..]);
      OneRecordLess(A, |stream|);
    }
  }

  /** `record` is the `k`-th slice of the stream. */
  ghost predicate IsSlice(A: nat, stream: seq<byte>, k: nat, record: seq<byte>) {
    && 0 <= k * A && k * A + A <= |stream|
    && record == stream[k * A..k * A + A]
  }

  lemma SliceBehind(A: nat, stream: seq<byte>, k: nat, record: seq<byte>)
    requires 0 < k && A <= |stream| && IsSlice(A, stream[A..], k - 1, record)
    ensures IsSlice(A, stream, k, record)
  {
    var at := (k - 1) * A;
    assert k * A == at + A;
    assert stream[A..][at..at + A] == stream[at + A..at + A + A];
  }

  lemma {:induction false} CutSlices(A: nat, stream: seq<byte>, k: nat)
    requires A > 0 && k < |Cut(A, stream).records|
    ensures IsSlice(A, stream, k, Cut(A, stream).records[k])
    decreases |stream|
  {
    if k > 0 {
      CutSlices(A, stream[A..], k - 1);
      SliceBehind(A, stream, k, Cut(A, stream).records[k]);
    } else {
      assert k * A == 0;
    }
  }

  /** One notification keeps up with the reference, as long as no more than a record arrives. */
  lemma {:induction false} NotifyKeepsUp(A: nat, stream: seq<byte>, bytes: seq<byte>)
    requires A > 0 && |bytes| <= A
    ensures Notify(A, Cut(A, stream), bytes) == Cut(A, stream + bytes)
    decreases |stream|
  {
    var longer := stream + bytes;
    if |stream| < A {
      if |longer| >= A {
        assert Cut(A, longer[A..]) == Reader(longer[A..], []);
      }
    } else {
      NotifyKeepsUp(A, stream[A..], bytes);
      assert longer[..A] == stream[..A] && longer[A..] == stream[A..] + bytes;
      var rest := Cut(A, stream[A..]);
      var available := rest.live + bytes;
      if |available| >= A {
        assert [stream[..A]] + (rest.records + [available[..A]]) == ([stream[..A]] + rest.records) + [available[..A]];
      }
    }
  }

  lemma FlattenBehind(stream: seq<byte>, chunks: seq<seq<byte>>)
    requires chunks != []
    ensures stream + Flatten(chunks) == (stream + chunks[0]) + Flatten(chunks[1..])
  {
  }

  lemma {:induction false} FeedKeepsUp(A: nat, stream: seq<byte>, chunks: seq<seq<byte>>)
    requires A > 0 && Segmented(chunks, A)
    ensures Feed(A, Cut(A, stream), chunks) == Cut(A, stream + Flatten(chunks))
    decreases |chunks|
  {
    if chunks == [] {
      assert stream + Flatten(chunks) == stream;
    } else {
      assert chunks[0] in chunks;
      NotifyKeepsUp(A, stream, chunks[0]);
      FeedKeepsUp(A, stream + chunks[0], chunks[1..]);
      FlattenBehind(stream, chunks);
    }
  }

  /** However the stream is split into reads of at most one record's size, taking at most one record
  per notification delivers every whole record, in order, and leaves only the remainder waiting. */
  lemma RecordsComplete(A: nat, chunks: seq<seq<byte>>)
    requires A > 0 && Segmented(chunks, A)
    ensures Feed(A, NOTHING_READ, chunks) == Cut(A, Flatten(chunks))
  {
    FeedKeepsUp(A, [], chunks);
    assert [] + Flatten(chunks) == Flatten(chunks);
  }

  /** In particular the count, the remainder and every record depend on the stream alone. */
  lemma RecordsDelivered(A: nat, chunks: seq<seq<byte>>)
    requires A > 0 && Segmented(chunks, A)
    ensures var (r, stream) := (Feed(A, NOTHING_READ, chunks), Flatten(chunks));
            && |r.records| == |stream| / A
            && |r.live| == |stream| % A
            && forall k: nat | k < |r.records| :: IsSlice(A, stream, k, r.records[k])
  {
    RecordsComplete(A, chunks);
    var stream := Flatten(chunks);
    CutCounts(A, stream);
    var r := Cut(A, stream);
    forall k: nat | k < |r.records|
      ensures IsSlice(A, stream, k, r.records[k])
    {
      CutSlices(A, stream, k);
    }
  }

  /** Two segmentations of one stream deliver the same records and leave the same remainder. */
  lemma SegmentationIrrelevant(A: nat, xs: seq<seq<byte>>, ys: seq<seq<byte>>)
    requires A > 0 && Segmented(xs, A) && Segmented(ys, A) && Flatten(xs) == Flatten(ys)
    ensures Feed(A, NOTHING_READ, xs) == Feed(A, NOTHING_READ, ys)
  {
    RecordsComplete(A, xs);
    RecordsComplete(A, ys);
  }

  /** Reads of up to `c` bytes keep the reader complete exactly when `c` is at most a record. */
  lemma CompleteExactly(A: nat, c: nat, b: byte)
    requires A > 0
    ensures (forall chunks | Segmented(chunks, c) :: Feed(A, NOTHING_READ, chunks) == Cut(A, Flatten(chunks))) <==> c <= A
  {
    if c <= A {
      forall chunks | Segmented(chunks, c)
        ensures Feed(A, NOTHING_READ, chunks) == Cut(A, Flatten(chunks))
      {
        RecordsComplete(A, chunks);
      }
    } else {
      LargeReadsLag(A, c, b);
    }
  }

  /** A read that is larger than a record can leave a whole record waiting. */
  lemma LargeReadsLag(A: nat, c: nat, b: byte)
    requires 0 < A < c
    ensures exists chunks :: Segmented(chunks, c) && Feed(A, NOTHING_READ, chunks) != Cut(A, Flatten(chunks))
  {
    var short, long := seq(A - 1, i => b), seq(A + 1, i => b);
    var chunks := [short, long];
    assert chunks[1..] == [long] && [long][1..] == [];
    var r := Notify(A, NOTHING_READ, short);
    assert Feed(A, NOTHING_READ, chunks) == Feed(A, r, [long]) == Feed(A, Notify(A, r, long), []) == Notify(A, r, long);
    assert |Feed(A, NOTHING_READ, chunks).live| == A;
    CutCounts(A, Flatten(chunks));
    assert Segmented(chunks, c);
  }

  /** The application's notification callback. */
  method ReadStream(conn: Connection, bytesAvailable: nat) returns (msg: Option<seq<byte>>)
    requires conn.peer.Valid() && conn.peer.hasContext && bytesAvailable == conn.peer.buffer.size
    modifies conn.peer, conn.peer.buffer, conn.peer.buffer.data
    ensures conn.peer.Valid() && conn.peer.buffer.data == old(conn.peer.buffer.data)
    ensures var taken := !conn.expired && bytesAvailable >= AMOUNT_FOR_CONSUME;
            && (taken ==> R.Takes(old(conn.peer.View()), R.Consume(AMOUNT_FOR_CONSUME), conn.peer.View()))
            && (!taken ==> conn.peer.View() == old(conn.peer.View()))
            && msg == if taken then Some(old(conn.peer.View().Live()[..AMOUNT_FOR_CONSUME])) else None
  {
    var buf := new byte[AMOUNT_FOR_CONSUME + 1](i => 0);
    msg := None;
    if bytesAvailable >= AMOUNT_FOR_CONSUME {
      var thrown := conn.ConsumeInto(buf, AMOUNT_FOR_CONSUME);
      if !thrown {
        buf[AMOUNT_FOR_CONSUME] := NUL;
        assert buf[..AMOUNT_FOR_CONSUME] == old(conn.peer.View().Live()[..AMOUNT_FOR_CONSUME]);
        msg := Some(buf[..AMOUNT_FOR_CONSUME]);
      }
    }
  }

  /** A connection whose read chain is running with the server's chunk size. */
  ghost predicate Serving(conn: Connection)
    reads conn, conn.peer, conn.peer.buffer, conn.peer.buffer.data
  {
    && conn.peer.Valid() && conn.peer.outstanding != [] && !conn.expired
    && conn.peer.chunkSize == CHUNK_SIZE && conn.peer.maxSize > AMOUNT_FOR_CONSUME + CHUNK_SIZE
  }

  /** The same round on the buffer's machine. */
  lemma Round(s: R.Rx, chunk: seq<byte>, announced: R.Rx, taken: R.Rx, block: seq<byte>, next: R.Rx)
    requires R.Inv(s) && s.pending != [] && s.chunk == CHUNK_SIZE && s.limit > AMOUNT_FOR_CONSUME + CHUNK_SIZE
    requires s.size < AMOUNT_FOR_CONSUME && 0 < |chunk| <= CHUNK_SIZE
    requires R.Takes(s, R.ReadCompletes(0, chunk), announced)
    requires if announced.size >= AMOUNT_FOR_CONSUME then R.Takes(announced, R.Consume(AMOUNT_FOR_CONSUME), taken) else taken == announced
    requires R.Takes(taken, R.CallbackReturns(block), next)
    ensures next.pending != []
    ensures Reader(next.Live(), if announced.size >= AMOUNT_FOR_CONSUME then [announced.Live()[..AMOUNT_FOR_CONSUME]] else [])
            == Notify(AMOUNT_FOR_CONSUME, Reader(s.Live(), []), chunk)
  {
    R.CompletionFits(s, 0, chunk);
    R.StepKeepsInv(s, R.ReadCompletes(0, chunk));
    if announced.size >= AMOUNT_FOR_CONSUME {
      R.ConsumeTakesFront(announced, AMOUNT_FOR_CONSUME);
      R.StepKeepsInv(announced, R.Consume(AMOUNT_FOR_CONSUME));
    }
    R.ReadSomeKeepsInv(taken.(hasContext := false), block);
  }

  /** One read completes, the application is notified and returns, the next read is issued. */
  method ServeChunk(conn: Connection, chunk: seq<byte>) returns (msg: Option<seq<byte>>)
    requires Serving(conn) && 0 < |chunk| <= CHUNK_SIZE && conn.peer.buffer.size < AMOUNT_FOR_CONSUME
    modifies conn.peer, conn.peer.buffer, conn.peer.buffer.data
    ensures conn.peer.Valid() && Serving(conn)
    ensures conn.peer.buffer.data == old(conn.peer.buffer.data) || fresh(conn.peer.buffer.data)
    ensures Reader(conn.peer.View().Live(), if msg.Some? then [msg.value] else [])
            == Notify(AMOUNT_FOR_CONSUME, Reader(old(conn.peer.View().Live()), []), chunk)
  {
    var b := conn.peer;
    ghost var start := b.View();
    assert b.outstanding[0].window == start.pending[0];
    var available := b.ReadCompletes(0, chunk);
    ghost var announced := b.View();
    msg := ReadStream(conn, available);
    ghost var taken := b.View();
    var thrown := b.CallbackReturns(b.buffer.size + CHUNK_SIZE);
    Round(start, chunk, announced, taken, b.buffer.data[..], b.View());
  }

  /** The service delivers `chunks`; the application ends up with every whole record of the stream. */
  method Serve(conn: Connection, chunks: seq<seq<byte>>) returns (records: seq<seq<byte>>)
    requires Serving(conn) && conn.peer.View().Live() == []
    requires Segmented(chunks, CHUNK_SIZE) && [] !in chunks
    modifies conn.peer, conn.peer.buffer, conn.peer.buffer.data
    ensures Serving(conn)
    ensures Reader(conn.peer.View().Live(), records) == Cut(AMOUNT_FOR_CONSUME, Flatten(chunks))
  {
    records := [];
    for i := 0 to |chunks|
      invariant Serving(conn)
      invariant conn.peer.buffer.data == old(conn.peer.buffer.data) || fresh(conn.peer.buffer.data)
      invariant Reader(conn.peer.View().Live(), records) == Cut(AMOUNT_FOR_CONSUME, Flatten(chunks[..i]))
    {
      assert chunks[i] in chunks;
      CutCounts(AMOUNT_FOR_CONSUME, Flatten(chunks[..i]));
      NotifyKeepsUp(AMOUNT_FOR_CONSUME, Flatten(chunks[..i]), chunks[i]);
      assert chunks[..i + 1] == chunks[..i] + [chunks[i]];
      FlattenAppend(chunks[..i], chunks[i]);
      var msg := ServeChunk(conn, chunks[i]);
      if msg.Some? {
        records := records + [msg.value];
      }
    }
    assert chunks[..|chunks|] == chunks;
  }
}
