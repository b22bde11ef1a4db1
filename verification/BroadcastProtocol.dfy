/** The peers of a TCP server as a machine over values (IoServices/TcpServer.cpp:108-126, 238-283):
accepts, broadcasts, direct writes, socket closes, and the error handler's purge of the peer list.

An accepted connection starts reading before it is put on the list, so an error can be handled in
between. */
module BroadcastProtocol {
  import opened Bytes
  import opened Runs
  import opened IoBufferWrapper

  /** One message enqueued on a connection, by a broadcast or by a direct write. */
  datatype Entry = Entry(msg: Message, broadcast: bool)

  datatype Peer = Peer(
    isOpen: bool,
    listed: bool,          // it has been put on the server's list
    joined: nat,           // how many broadcasts the server had made by then
    history: seq<Entry>)   // everything enqueued on it

  /** `T` identifies connections. */
  datatype Server<T(==)> = Server(
    peers: seq<T>,          // the server's list
    conns: map<T, Peer>,    // every connection ever accepted
    log: seq<Message>)      // every broadcast

  datatype Event<T> =
    | Accepts(id: T)              // the accept completes and the connection starts reading
    | Lists(id: T)                // the connection is put on the list
    | Broadcast(msg: Message)
    | WritesTo(id: T, msg: Message)
    | SocketCloses(id: T)
    | HandlesError(id: T, error: bool)
    | CloseAll

  function Init<T>(): Server<T> {
    Server([], map[], [])
  }

  predicate Enabled<T>(s: Server<T>, e: Event<T>) {
    match e
    case Accepts(id) => id !in s.conns
    case Lists(id) => id in s.conns && !s.conns[id].listed
    case Broadcast(_) => true
    case WritesTo(id, _) => id in s.conns
    case SocketCloses(id) => id in s.conns
    case HandlesError(id, _) => id in s.conns
    case CloseAll => true
  }

  function Enqueue(p: Peer, msg: Message, broadcast: bool): Peer {
    p.(history := p.history + [Entry(msg, broadcast)])
  }

  function Closed<T>(conns: map<T, Peer>, ids: set<T>): map<T, Peer> {
    map id | id in conns :: if id in ids then conns[id].(isOpen := false) else conns[id]
  }

  function IfOpen<T>(id: T, conns: map<T, Peer>): seq<T> {
    if id in conns && conns[id].isOpen then [id] else []
  }

  /** The open ones among `ids`, in order. */
  function OpenOnly<T>(ids: seq<T>, conns: map<T, Peer>): seq<T> {
    if ids == [] then [] else IfOpen(ids[0], conns) + OpenOnly(ids[1..], conns)
  }

  function Step<T>(s: Server<T>, e: Event<T>): Server<T>
    requires Enabled(s, e)
  {
    match e
    case Accepts(id) => s.(conns := s.conns[id := Peer(true, false, 0, [])])
    case Lists(id) =>
      s.(peers := s.peers + [id], conns := s.conns[id := s.conns[id].(listed := true, joined := |s.log|)])
    case Broadcast(msg) =>
      s.(log := s.log + [msg],
         conns := map id | id in s.conns :: if id in s.peers then Enqueue(s.conns[id], msg, true) else s.conns[id])
    case WritesTo(id, msg) => s.(conns := s.conns[id := Enqueue(s.conns[id], msg, false)])
    case SocketCloses(id) => s.(conns := Closed(s.conns, {id}))
    case HandlesError(id, error) =>
      if !error then s else
        var conns := Closed(s.conns, {id});
        s.(conns := conns, peers := OpenOnly(s.peers, conns))
    case CloseAll => s.(conns := Closed(s.conns, set id | id in s.peers))
  }

  predicate Takes<T>(before: Server<T>, e: Event<T>, after: Server<T>) {
    Enabled(before, e) && after == Step(before, e)
  }

  /** The messages of an enqueue history. */
  function Messages(history: seq<Entry>): seq<Message> {
    seq(|history|, i requires 0 <= i < |history| => history[i].msg)
  }

  /** The broadcasts in an enqueue history. */
  function Broadcasts(history: seq<Entry>): seq<Message> {
    if history == [] then [] else
      var last := history[|history| - 1];
      Broadcasts(history[..|history| - 1]) + (if last.broadcast then [last.msg] else [])
  }

  lemma BroadcastsOneMore(history: seq<Entry>, entry: Entry)
    ensures Broadcasts(history + [entry]) == Broadcasts(history) + if entry.broadcast then [entry.msg] else []
  {
    assert (history + [entry])[..|history|] == history;
  }

  ghost predicate Distinct<T>(ids: seq<T>) {
    forall i, j | 0 <= i < j < |ids| :: ids[i] != ids[j]
  }

  /** What one connection looks like between any two events. */
  ghost predicate PeerInv<T>(s: Server<T>, id: T)
    requires id in s.conns
  {
    var p := s.conns[id];
    && (id in s.peers ==> p.listed && p.joined <= |s.log| && Broadcasts(p.history) == s.log[p.joined..])
    && (id !in s.peers && p.isOpen ==> !p.listed)
    && (!p.listed ==> Broadcasts(p.history) == [])
  }

  ghost predicate Inv<T>(s: Server<T>) {
    && Distinct(s.peers)
    && (forall id | id in s.peers :: id in s.conns)
    && (forall id | id in s.conns :: PeerInv(s, id))
  }

  lemma {:induction false} OpenOnlyKeeps<T>(ids: seq<T>, conns: map<T, Peer>)
    ensures forall id | id in OpenOnly(ids, conns) :: id in ids && id in conns && conns[id].isOpen
    ensures forall id | id in ids && id in conns && conns[id].isOpen :: id in OpenOnly(ids, conns)
    ensures |OpenOnly(ids, conns)| <= |ids|
    ensures Distinct(ids) ==> Distinct(OpenOnly(ids, conns))
  {
    if ids != [] {
      OpenOnlyKeeps(ids[1..], conns);
      assert ids == [ids[0]] + ids[1..];
      if Distinct(ids) {
        assert ids[0] !in ids[1..];
        assert Distinct(ids[1..]);
      }
    }
  }

  lemma {:induction false} OpenOnlyOneMore<T>(ids: seq<T>, last: T, conns: map<T, Peer>)
    ensures OpenOnly(ids + [last], conns) == OpenOnly(ids, conns) + IfOpen(last, conns)
  {
    if ids == [] {
      assert ids + [last] == [last];
    } else {
      assert (ids + [last])[0] == ids[0] && (ids + [last])[1..] == ids[1..] + [last];
      OpenOnlyOneMore(ids[1..], last, conns);
      AppendAssociative(IfOpen(ids[0], conns), OpenOnly(ids[1..], conns), IfOpen(last, conns));
    }
  }

  lemma ListingKeepsInv<T>(s: Server<T>, id: T)
    requires Inv(s) && Enabled(s, Lists(id))
    ensures Inv(Step(s, Lists(id)))
  {
    var t := Step(s, Lists(id));
    assert PeerInv(s, id);
    forall other | other in t.conns ensures PeerInv(t, other) {
      assert PeerInv(s, other);
    }
  }

  lemma BroadcastKeepsInv<T>(s: Server<T>, msg: Message)
    requires Inv(s)
    ensures Inv(Step(s, Broadcast(msg)))
  {
    var t := Step(s, Broadcast(msg));
    forall id | id in t.conns ensures PeerInv(t, id) {
      assert PeerInv(s, id);
      if id in s.peers {
        var p := s.conns[id];
        BroadcastsOneMore(p.history, Entry(msg, true));
        assert t.log[p.joined..] == s.log[p.joined..] + [msg];
      }
    }
  }

  lemma WriteKeepsInv<T>(s: Server<T>, id: T, msg: Message)
    requires Inv(s) && Enabled(s, WritesTo(id, msg))
    ensures Inv(Step(s, WritesTo(id, msg)))
  {
    var t := Step(s, WritesTo(id, msg));
    BroadcastsOneMore(s.conns[id].history, Entry(msg, false));
    forall other | other in t.conns ensures PeerInv(t, other) {
      assert PeerInv(s, other);
    }
  }

  /** Closing sockets, with or without the purge that follows a handled error. */
  lemma ClosingKeepsInv<T>(s: Server<T>, ids: set<T>)
    requires Inv(s)
    ensures var conns := Closed(s.conns, ids);
            Inv(s.(conns := conns)) && Inv(s.(conns := conns, peers := OpenOnly(s.peers, conns)))
  {
    var conns := Closed(s.conns, ids);
    var kept, purged := s.(conns := conns), s.(conns := conns, peers := OpenOnly(s.peers, conns));
    OpenOnlyKeeps(s.peers, conns);
    assert forall id | id in purged.peers :: id in s.peers && id in conns;
    forall id | id in conns ensures PeerInv(kept, id) && PeerInv(purged, id) {
      assert PeerInv(s, id);
    }
  }

  lemma ClosingOne<T>(s: Server<T>, id: T)
    requires Inv(s) && id in s.conns
    ensures var t := s.(conns := s.conns[id := s.conns[id].(isOpen := false)]);
            Inv(t) && t == Step(s, SocketCloses(id))
  {
    StepKeepsInv(s, SocketCloses(id));
    assert Closed(s.conns, {id}) == s.conns[id := s.conns[id].(isOpen := false)];
  }

  /** Handling an error is closing the connection, then purging. */
  lemma HandlingIsClosingAndPurging<T>(s: Server<T>, id: T, closed: Server<T>)
    requires id in s.conns && closed == Step(s, SocketCloses(id))
    ensures Step(s, HandlesError(id, true)) == closed.(peers := OpenOnly(closed.peers, closed.conns))
  {
  }

  lemma StepKeepsInv<T>(s: Server<T>, e: Event<T>)
    requires Inv(s) && Enabled(s, e)
    ensures Inv(Step(s, e))
  {
    match e
    case Accepts(id) =>
      var t := Step(s, e);
      forall other | other in t.conns ensures PeerInv(t, other) {
        assert other in s.conns ==> PeerInv(s, other);
      }
    case Lists(id) => ListingKeepsInv(s, id);
    case Broadcast(msg) => BroadcastKeepsInv(s, msg);
    case WritesTo(id, msg) => WriteKeepsInv(s, id, msg);
    case SocketCloses(id) => ClosingKeepsInv(s, {id});
    case HandlesError(id, error) => ClosingKeepsInv(s, {id});
    case CloseAll => ClosingKeepsInv(s, set id | id in s.peers);
  }

  lemma ReachableInv(es: seq<Event<nat>>)
    requires Feasible(Step, Init(), es)
    ensures Inv(Run(Step, Init(), es))
  {
    forall s: Server<nat>, e | Inv(s) && Enabled(s, e) ensures Inv(Step(s, e)) {
      StepKeepsInv(s, e);
    }
    Preserved(Step, Inv, Init(), es);
  }

  /** In every run: every peer on the list has been enqueued exactly the broadcasts made since it was
  put there, in order, whatever direct writes, accepts, closes and purges came between. */
  lemma BroadcastsSinceJoining(es: seq<Event<nat>>, id: nat)
    requires Feasible(Step, Init(), es) && id in Run(Step, Init(), es).peers
    ensures var s := Run(Step, Init(), es);
            && id in s.conns && s.conns[id].joined <= |s.log|
            && Broadcasts(s.conns[id].history) == s.log[s.conns[id].joined..]
  {
    ReachableInv(es);
    assert PeerInv(Run(Step, Init(), es), id);
  }

  /** Two peers on the list agree on every broadcast made after both joined: the one that joined later
  was enqueued a suffix of what the other one was. */
  lemma PeersAgree(es: seq<Event<nat>>, early: nat, late: nat)
    requires Feasible(Step, Init(), es)
    requires early in Run(Step, Init(), es).peers && late in Run(Step, Init(), es).peers
    requires early in Run(Step, Init(), es).conns && late in Run(Step, Init(), es).conns
    requires Run(Step, Init(), es).conns[early].joined <= Run(Step, Init(), es).conns[late].joined
    ensures var conns := Run(Step, Init(), es).conns;
            var skipped := conns[late].joined - conns[early].joined;
            && skipped <= |Broadcasts(conns[early].history)|
            && Broadcasts(conns[late].history) == Broadcasts(conns[early].history)[skipped..]
  {
    BroadcastsSinceJoining(es, early);
    BroadcastsSinceJoining(es, late);
  }

  /** In every run no open peer has been dropped from the list, and none is on it twice. */
  lemma OpenPeersStay(es: seq<Event<nat>>)
    requires Feasible(Step, Init(), es)
    ensures var s := Run(Step, Init(), es);
            && (forall id | id in s.conns && s.conns[id].listed && s.conns[id].isOpen :: id in s.peers)
            && Distinct(s.peers)
  {
    ReachableInv(es);
    var s := Run(Step, Init(), es);
    forall id | id in s.conns && s.conns[id].listed && s.conns[id].isOpen ensures id in s.peers {
      assert PeerInv(s, id);
    }
  }

  /** A handled error leaves exactly the open peers on the list, in their order. */
  lemma PurgeLeavesOpen<T>(s: Server<T>, id: T)
    requires Inv(s) && id in s.conns
    ensures var t := Step(s, HandlesError(id, true));
            && t.peers == OpenOnly(s.peers, t.conns)
            && forall other :: other in t.peers <==> other in s.peers && other != id && s.conns[other].isOpen
  {
    OpenOnlyKeeps(s.peers, Closed(s.conns, {id}));
  }

  lemma {:induction false} NoneOpen<T>(ids: seq<T>, conns: map<T, Peer>)
    requires forall id | id in ids :: id in conns && !conns[id].isOpen
    ensures OpenOnly(ids, conns) == []
  {
    if ids != [] {
      assert ids[0] in ids;
      NoneOpen(ids[1..], conns);
    }
  }

  /** Closing all connections leaves the list alone; the next handled error empties it. */
  lemma ErrorAfterCloseAllEmpties<T>(s: Server<T>, id: T)
    requires Inv(s) && id in s.conns
    ensures var closed := Step(s, CloseAll);
            closed.peers == s.peers && Step(closed, HandlesError(id, true)).peers == []
  {
    var closed := Step(s, CloseAll);
    var purged := Step(closed, HandlesError(id, true));
    NoneOpen(closed.peers, purged.conns);
  }

  /** The connection has been put on the list, closed, and removed again. */
  predicate Removed<T>(s: Server<T>, id: T) {
    id in s.conns && s.conns[id].listed && !s.conns[id].isOpen && id !in s.peers
  }

  lemma RemovedForGood(s: Server<nat>, id: nat, es: seq<Event<nat>>)
    requires Removed(s, id) && Feasible(Step, s, es)
    ensures Removed(Run(Step, s, es), id)
  {
    forall t: Server<nat>, e | Removed(t, id) && Enabled(t, e) ensures Removed(Step(t, e), id) {
      RemovedStays(t, id, e);
    }
    Preserved(Step, (t: Server<nat>) => Removed(t, id), s, es);
  }

  lemma RemovedStays<T>(s: Server<T>, id: T, e: Event<T>)
    requires Removed(s, id) && Enabled(s, e)
    ensures Removed(Step(s, e), id)
  {
    if e.HandlesError? {
      OpenOnlyKeeps(s.peers, Closed(s.conns, {e.id}));
    }
  }

  /** Some continuation has the connection on the list. */
  ghost predicate CanBeListed(s: Server<nat>, id: nat) {
    exists es :: Feasible(Step, s, es) && id in Run(Step, s, es).peers
  }

  /** A connection whose error has been handled can still get onto the list exactly when it had not
  been put there before: `OnAccept` starts its reading first, and another pool thread can handle the
  error in between.  (A lone service thread runs `OnAccept` to its end.) */
  lemma ListedAfterErrorExactly(es: seq<Event<nat>>, id: nat)
    requires Feasible(Step, Init(), es) && id in Run(Step, Init(), es).conns
    ensures var s := Run(Step, Init(), es);
            CanBeListed(Step(s, HandlesError(id, true)), id) <==> !s.conns[id].listed
  {
    ReachableInv(es);
    var s := Run(Step, Init(), es);
    var t := Step(s, HandlesError(id, true));
    PurgeLeavesOpen(s, id);
    if s.conns[id].listed {
      forall fs | Feasible(Step, t, fs) ensures id !in Run(Step, t, fs).peers {
        RemovedForGood(t, id, fs);
      }
    } else {
      assert id in Step(t, Lists(id)).peers;
      assert Feasible(Step, Step(t, Lists(id)), []);
      Cons(Step, t, Lists(id), []);
    }
  }

  /** What closes the socket of `id`. */
  predicate Closes<T>(s: Server<T>, e: Event<T>, id: T) {
    match e
    case SocketCloses(other) => other == id
    case HandlesError(other, error) => other == id && error
    case CloseAll => id in s.peers
    case _ => false
  }

  /** No connection is forgotten, and an open one is closed by exactly these events: an error handled
  without an error code, or the closing of other connections, leaves it open. */
  lemma StaysOpenExactly<T>(s: Server<T>, e: Event<T>, id: T)
    requires Enabled(s, e)
    ensures id in s.conns ==>
              id in Step(s, e).conns && (Step(s, e).conns[id].isOpen <==> s.conns[id].isOpen && !Closes(s, e, id))
    ensures id !in s.conns && id in Step(s, e).conns ==> e == Accepts(id) && Step(s, e).conns[id].isOpen
  {
  }

  /** The connections put on the list, in the order in which that happened. */
  function Listings(es: seq<Event<nat>>): seq<nat> {
    if es == [] then [] else ListedBy(es[0]) + Listings(es[1..])
  }

  function ListedBy(e: Event<nat>): seq<nat> {
    if e.Lists? then [e.id] else []
  }

  /** Those of `ids` that are among `kept`, in their order. */
  function OnlyIn(ids: seq<nat>, kept: seq<nat>): seq<nat> {
    if ids == [] then [] else IfIn(ids[0], kept) + OnlyIn(ids[1..], kept)
  }

  function IfIn(id: nat, kept: seq<nat>): seq<nat> {
    if id in kept then [id] else []
  }

  lemma {:induction false} OnlyInConcat(ids: seq<nat>, more: seq<nat>, kept: seq<nat>)
    ensures OnlyIn(ids + more, kept) == OnlyIn(ids, kept) + OnlyIn(more, kept)
  {
    if ids == [] {
      assert ids + more == more;
    } else {
      assert (ids + more)[0] == ids[0] && (ids + more)[1..] == ids[1..] + more;
      OnlyInConcat(ids[1..], more, kept);
      AppendAssociative(IfIn(ids[0], kept), OnlyIn(ids[1..], kept), OnlyIn(more, kept));
    }
  }

  lemma {:induction false} OnlyInAll(ids: seq<nat>, kept: seq<nat>)
    requires forall id | id in ids :: id in kept
    ensures OnlyIn(ids, kept) == ids
  {
    if ids != [] {
      OnlyInAll(ids[1..], kept);
    }
  }

  /** Leaving out the closed ones makes no difference if none of them is kept. */
  lemma {:induction false} OnlyInOpen(ids: seq<nat>, conns: map<nat, Peer>, kept: seq<nat>)
    requires forall id | id in ids && IfOpen(id, conns) == [] :: id !in kept
    ensures OnlyIn(OpenOnly(ids, conns), kept) == OnlyIn(ids, kept)
  {
    if ids != [] {
      OnlyInOpen(ids[1..], conns, kept);
      OnlyInConcat(IfOpen(ids[0], conns), OpenOnly(ids[1..], conns), kept);
      if IfOpen(ids[0], conns) != [] {
        assert OnlyIn([ids[0]], kept) == IfIn(ids[0], kept) + OnlyIn([ids[0]][1..], kept);
      }
    }
  }

  lemma PurgeKeepsOrder(s: Server<nat>, id: nat, es: seq<Event<nat>>)
    requires Inv(s) && id in s.conns && Feasible(Step, Step(s, HandlesError(id, true)), es)
    ensures var t := Step(s, HandlesError(id, true));
            var kept := Run(Step, t, es).peers;
            OnlyIn(t.peers, kept) == OnlyIn(s.peers, kept)
  {
    var t := Step(s, HandlesError(id, true));
    OpenOnlyKeeps(s.peers, t.conns);
    forall other | other in s.peers && IfOpen(other, t.conns) == []
      ensures other !in Run(Step, t, es).peers
    {
      assert PeerInv(s, other);
      RemovedForGood(t, other, es);
    }
    OnlyInOpen(s.peers, t.conns, Run(Step, t, es).peers);
  }

  lemma StepListsBehind(s: Server<nat>, e: Event<nat>)
    requires Enabled(s, e) && !(e.HandlesError? && e.error)
    ensures Step(s, e).peers == s.peers + ListedBy(e)
  {
  }

  lemma StepKeepsOrder(s: Server<nat>, e: Event<nat>, es: seq<Event<nat>>)
    requires Inv(s) && Enabled(s, e) && Feasible(Step, Step(s, e), es)
    ensures var kept := Run(Step, Step(s, e), es).peers;
            OnlyIn(Step(s, e).peers, kept) == OnlyIn(s.peers + ListedBy(e), kept)
  {
    if e.HandlesError? && e.error {
      PurgeKeepsOrder(s, e.id, es);
      assert s.peers + ListedBy(e) == s.peers;
    } else {
      StepListsBehind(s, e);
    }
  }

  lemma {:induction false} PeersFollowListings(s: Server<nat>, es: seq<Event<nat>>)
    requires Inv(s) && Feasible(Step, s, es)
    ensures Run(Step, s, es).peers == OnlyIn(s.peers + Listings(es), Run(Step, s, es).peers)
    decreases |es|
  {
    var kept := Run(Step, s, es).peers;
    if es == [] {
      assert s.peers + Listings(es) == s.peers;
      OnlyInAll(s.peers, kept);
    } else {
      var t, rest := Step(s, es[0]), Listings(es[1..]);
      StepKeepsInv(s, es[0]);
      PeersFollowListings(t, es[1..]);
      StepKeepsOrder(s, es[0], es[1..]);
      OnlyInConcat(t.peers, rest, kept);
      OnlyInConcat(s.peers + ListedBy(es[0]), rest, kept);
      AppendAssociative(s.peers, ListedBy(es[0]), rest);
    }
  }

  /** In every run the peers are in the order in which they were put on the list, whatever was purged in
  between. */
  lemma ListedInOrder(es: seq<Event<nat>>)
    requires Feasible(Step, Init(), es)
    ensures var peers := Run(Step, Init(), es).peers;
            peers == OnlyIn(Listings(es), peers)
  {
    PeersFollowListings(Init(), es);
    assert [] + Listings(es) == Listings(es);
  }
}
