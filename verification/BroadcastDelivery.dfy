/** What a server's broadcasts come to at the other ends: the peer list, each peer's write queue, and
each peer's wire and receive buffer together. */
module BroadcastDelivery {
  import opened Runs
  import opened IoBufferWrapper
  import opened BroadcastProtocol
  import B = BroadcastProtocol
  import E = EndToEnd

  /** The application wrote nothing to this connection itself. */
  predicate OnlyBroadcasts(history: seq<Entry>) {
    forall i | 0 <= i < |history| :: history[i].broadcast
  }

  lemma {:induction false} BroadcastsAreAll(history: seq<Entry>)
    requires OnlyBroadcasts(history)
    ensures Broadcasts(history) == Messages(history)
    decreases |history|
  {
    if history != [] {
      BroadcastsAreAll(history[..|history| - 1]);
      assert Messages(history) == Messages(history[..|history| - 1]) + [history[|history| - 1].msg];
    }
  }

  /** A run `es` of the server and a run `fs` of the connection to its listed peer `id` belong
  together: what the server enqueued for the peer is what the connection's sender was given. */
  ghost predicate Serves(es: seq<B.Event<nat>>, id: nat, limit: nat, fs: seq<E.Event>) {
    && Feasible(B.Step, B.Init(), es) && id in Run(B.Step, B.Init(), es).peers
    && id in Run(B.Step, B.Init(), es).conns
    && Feasible(E.Step, E.Init(limit), fs)
    && E.Messages(fs) == Messages(Run(B.Step, B.Init(), es).conns[id].history)
  }

  /** Everything enqueued for the peer has been read by it. */
  predicate Arrived(s: E.Net) {
    s.tx.queue == [] && s.transit == [] && !s.cut
  }

  /** A listed peer receives, in order and nothing else, the encodings of everything enqueued for it,
  whose broadcasts are exactly those made since it was listed: a prefix in every run, all of it once
  everything has arrived. */
  lemma HistoryReceived(es: seq<B.Event<nat>>, id: nat, limit: nat, fs: seq<E.Event>)
    requires Serves(es, id, limit, fs)
    ensures var (s, n) := (Run(B.Step, B.Init(), es), Run(E.Step, E.Init(limit), fs));
            && E.Got(n) <= Stream(Messages(s.conns[id].history))
            && (Arrived(n) ==> E.Got(n) == Stream(Messages(s.conns[id].history)))
            && s.conns[id].joined <= |s.log| && Broadcasts(s.conns[id].history) == s.log[s.conns[id].joined..]
  {
    BroadcastsSinceJoining(es, id);
    E.StreamDelivered(limit, fs);
  }

  /** A peer that was written nothing else receives just those broadcasts. */
  lemma BroadcastsReceived(es: seq<B.Event<nat>>, id: nat, limit: nat, fs: seq<E.Event>)
    requires Serves(es, id, limit, fs) && OnlyBroadcasts(Run(B.Step, B.Init(), es).conns[id].history)
    ensures var (s, n) := (Run(B.Step, B.Init(), es), Run(E.Step, E.Init(limit), fs));
            && s.conns[id].joined <= |s.log|
            && E.Got(n) <= Stream(s.log[s.conns[id].joined..])
            && (Arrived(n) ==> E.Got(n) == Stream(s.log[s.conns[id].joined..]))
  {
    HistoryReceived(es, id, limit, fs);
    BroadcastsAreAll(Run(B.Step, B.Init(), es).conns[id].history);
  }

  lemma StreamSplits(log: seq<Message>, j: nat, k: nat)
    requires j <= k <= |log|
    ensures Stream(log[j..]) == Stream(log[j..k]) + Stream(log[k..])
  {
    assert log[j..] == log[j..k] + log[k..];
    StreamConcat(log[j..k], log[k..]);
  }

  /** Of two listed peers that have received everything, the one listed first has received the
  broadcasts between the two listings, and then byte for byte what the other one has received. */
  lemma PeersReceiveTheSame(es: seq<B.Event<nat>>, early: nat, late: nat, limit: nat, limit': nat,
                            fs: seq<E.Event>, fs': seq<E.Event>)
    requires Serves(es, early, limit, fs) && Serves(es, late, limit', fs')
    requires OnlyBroadcasts(Run(B.Step, B.Init(), es).conns[early].history)
    requires OnlyBroadcasts(Run(B.Step, B.Init(), es).conns[late].history)
    requires Run(B.Step, B.Init(), es).conns[early].joined <= Run(B.Step, B.Init(), es).conns[late].joined
    requires Arrived(Run(E.Step, E.Init(limit), fs)) && Arrived(Run(E.Step, E.Init(limit'), fs'))
    ensures var s := Run(B.Step, B.Init(), es);
            && s.conns[late].joined <= |s.log|
            && E.Got(Run(E.Step, E.Init(limit), fs))
               == Stream(s.log[s.conns[early].joined..s.conns[late].joined]) + E.Got(Run(E.Step, E.Init(limit'), fs'))
  {
    BroadcastsReceived(es, early, limit, fs);
    BroadcastsReceived(es, late, limit', fs');
    var s := Run(B.Step, B.Init(), es);
    var (j, k) := (s.conns[early].joined, s.conns[late].joined);
    StreamSplits(s.log, j, k);
  }
}
