/** The unix client object (UnixDomainClient/ClientUnixConnection.cpp); its methods, and the pieces of
its worker thread between two waits, are steps of `ClientProtocol`. */
module ClientUnixConnection {
  import opened Bytes
  import P = ClientProtocol

  class ClientImpl {
    const domainPath: P.Path
    var shouldRun: bool
    var ioError: bool
    var expired: bool
    var clientConn: Option<P.Conn>
    var connPromise: Option<P.Conn>
    var errPromise: Option<(P.Conn, P.Path)>
    var work: P.Work
    ghost var connSets: nat
    ghost var errSets: nat
    ghost var flagging: nat
    ghost var delivered: Option<P.Conn>
    ghost var errored: bool
    var closed: bool
    var starts: nat

    ghost function View(): P.Client
      reads this
    {
      P.Client(domainPath, shouldRun, ioError, expired, clientConn, connPromise, errPromise,
               connSets, errSets, flagging, work, delivered, errored, closed, starts)
    }

    ghost predicate Valid()
      reads this
    {
      P.Inv(View())
    }

    ghost predicate Does(before: P.Client, e: P.Event)
      reads this
    {
      P.Enabled(before, e) && View() == P.Step(before, e)
    }

    constructor (path: P.Path)
      ensures Valid() && View() == P.Init(path)
    {
      domainPath := path;
      shouldRun, ioError, expired, closed := false, false, false, false;
      clientConn, connPromise, errPromise, work := None, None, None, P.NotStarted;
      connSets, errSets, flagging, delivered, errored, starts := 0, 0, 0, None, false, 0;
    }

    /** Starts the worker thread, which first takes the futures of the two promises.  Any further time
    that throws, so the new `Work` is over at once and the client has expired; `Stop`, which then waits
    for that one, can never learn of an error.  (A further call returns when the first `Work` is over.) */
    method Start()
      requires Valid()
      modifies this
      ensures Valid() && Does(old(View()), P.Start)
      ensures !old(work).NotStarted? ==> expired && !P.CanLearnError(View())
    {
      P.StepKeepsInv(View(), P.Start);
      shouldRun := true;
      starts := starts + 1;
      if work.NotStarted? {
        work := P.AwaitsConnect;
      } else {
        expired := true;
        P.RestartHidesErrors(View());
      }
    }

    /** `Stop`, when no callback comes in between: `Work` ends within three waits and has closed the
    connection it took over, unless an error was flagged: that one is left alone. */
    method Stop() returns (ok: bool)
      requires Valid() && !work.NotStarted?
      modifies this
      ensures Valid() && work.Done? && expired && (ok <==> P.StopLearns(View()))
      ensures ok ==> clientConn.Some? && errPromise == Some((clientConn.value, domainPath))
      ensures clientConn.Some? ==> closed || ioError
      ensures old(ioError) && !old(closed) ==> !closed
      ensures old(work).AwaitsStop? ==> (closed <==> !old(ioError))
    {
      StopSignals();
      while !work.Done?
        invariant Valid() && !work.NotStarted? && (work.Done? || !shouldRun) && ioError == old(ioError)
        invariant old(ioError) && !old(closed) ==> !closed
        invariant old(work).AwaitsStop? ==> work.AwaitsStop? || (closed <==> !ioError)
        decreases P.WaitsAhead(work)
      {
        match work
        case AwaitsConnect => ConnectWaitEnds();
        case AwaitsStop => Wakes();
        case AwaitsError => var recorded := ErrorWaitEnds();
      }
      ok := work.ok && starts <= 1;
    }

    /** The part of `Stop` before it waits for the worker thread. */
    method StopSignals()
      requires Valid()
      modifies this`shouldRun
      ensures Valid() && Does(old(View()), P.StopSignals)
    {
      P.StepKeepsInv(View(), P.StopSignals);
      shouldRun := false;
    }

    method SetConnection(path: P.Path, conn: P.Conn) returns (threw: bool)
      modifies this`connPromise, this`connSets
      ensures View() == P.SetConnection(old(View()), path, conn)
      ensures threw <==> old(clientConn).None? && path == domainPath && old(connPromise).Some?
    {
      if clientConn.Some? {
        return false;
      }
      if path != domainPath {
        return false;
      }
      connSets := connSets + 1;
      if connPromise.Some? {
        return true;
      }
      connPromise := Some(conn);
      return false;
    }

    /** `SetError` up to and including the promise. */
    method SetError(path: P.Path, handle: Option<P.Conn>) returns (threw: bool)
      modifies this`errPromise, this`errSets, this`flagging
      ensures View() == P.SetError(old(View()), path, handle)
      ensures threw <==> clientConn.Some? && clientConn == handle && path == domainPath && old(errPromise).Some?
    {
      if clientConn.None? {
        return false;
      }
      if clientConn != handle {
        return false;
      }
      if path != domainPath {
        return false;
      }
      errSets := errSets + 1;
      if errPromise.Some? {
        return true;
      }
      errPromise := Some((clientConn.value, path));
      flagging := flagging + 1;
      return false;
    }

    /** The connect callback of this client's own connect; `set_value` never throws. */
    method ConnectCallback(conn: P.Conn) returns (threw: bool)
      requires Valid() && P.Enabled(View(), P.ConnectCallback(conn))
      modifies this`connPromise, this`connSets, this`delivered
      ensures Valid() && Does(old(View()), P.ConnectCallback(conn)) && !threw
    {
      P.StepKeepsInv(View(), P.ConnectCallback(conn));
      delivered := Some(conn);
      threw := SetConnection(domainPath, conn);
    }

    /** The error callback of this client's own connection; `set_value` never throws. */
    method ErrorCallback(handle: Option<P.Conn>) returns (threw: bool)
      requires Valid() && P.Enabled(View(), P.ErrorCallback(handle))
      modifies this`errPromise, this`errSets, this`flagging, this`errored
      ensures Valid() && Does(old(View()), P.ErrorCallback(handle)) && !threw
    {
      P.StepKeepsInv(View(), P.ErrorCallback(handle));
      errored := true;
      threw := SetError(domainPath, handle);
    }

    /** The rest of `SetError`, under the lock. */
    method FlagsError()
      requires Valid() && flagging > 0
      modifies this`ioError, this`flagging
      ensures Valid() && Does(old(View()), P.Flags)
    {
      P.StepKeepsInv(View(), P.Flags);
      ioError := true;
      flagging := flagging - 1;
    }

    /** The wait for the connect promise is over: `Work` takes over the very connection that the connect
    callback delivered, and ends if none was. */
    method ConnectWaitEnds()
      requires Valid() && work.AwaitsConnect?
      modifies this`clientConn, this`work, this`expired
      ensures Valid() && Does(old(View()), if connPromise.None? then P.ConnectTimesOut else P.Connects)
      ensures clientConn == delivered && (work.Done? <==> delivered.None?)
    {
      P.StepKeepsInv(View(), if connPromise.None? then P.ConnectTimesOut else P.Connects);
      if connPromise.None? {
        Finish(false);  // throws; Work catches
        return;
      }
      clientConn := connPromise;
      work := P.AwaitsStop;
    }

    /** The condition variable's predicate holds: without an error the connection is closed; there is
    one, because `Work` has taken it over. */
    method Wakes()
      requires Valid() && work.AwaitsStop? && (!shouldRun || ioError)
      modifies this`work, this`closed
      ensures Valid() && Does(old(View()), P.Wakes)
      ensures closed <==> !ioError
    {
      P.StepKeepsInv(View(), P.Wakes);
      if !ioError {
        if clientConn.Some? {
          closed := true;
        }
      }
      work := P.AwaitsError;
    }

    /** The wait for the error promise is over; `Work` returns. */
    method ErrorWaitEnds() returns (ok: bool)
      requires Valid() && work.AwaitsError?
      modifies this`work, this`expired
      ensures Valid() && Does(old(View()), if ok then P.ErrorArrives else P.ErrorTimesOut)
      ensures ok ==> clientConn.Some? && errPromise == Some((clientConn.value, domainPath))
    {
      P.StepKeepsInv(View(), if errPromise.Some? then P.ErrorArrives else P.ErrorTimesOut);
      ok := errPromise.Some?;
      Finish(ok);
    }

    method Finish(ok: bool)
      modifies this`work, this`expired
      ensures View() == P.Finish(old(View()), ok)
    {
      expired := true;
      work := P.Done(ok);
    }
  }
}
