/** The request-correlation core of the WebSocket client (client.go): the write
    path, request registration, dispatch of inbound responses and the timeout sweep.

    The handler table (`handlers`) maps correlation ids to the callback waiting for
    the reply and the time the request was registered. Every transition is a pure
    function (or, for the sweep, a method) from the old table to the new one plus the
    callback firings it performs, in the order it performs them. */
module Client {
  import opened Wrappers
  import opened Command

  type Id = string
  type Bytes = seq<bv8>

  /** Data-frame message types, numbered as the frame opcodes of section 5.2 of RFC 6455. */
  const TextMessage: int := 1
  const BinaryMessage: int := 2

  /** Status codes handed to callbacks (sections 15.3.1 and 15.5.9 of RFC 9110). */
  const StatusOK: int := 200
  const StatusRequestTimeout: int := 408

  /** A data frame read from or written to the connection. */
  datatype Frame = Frame(messageType: int, payload: Bytes)

  /** A pending request (`RequestHandler`): its callback and registration time in ticks. */
  datatype Handler<C> = Handler(callback: C, ts: int)

  /** The handler table, keyed by correlation id. */
  type Table<C> = map<Id, Handler<C>>

  /** One invocation of a callback: which entry fired, with what status and data
      (`None` is Go's nil slice). */
  datatype Firing<C> = Firing(id: Id, callback: C, status: int, data: Option<Bytes>)

  /** The table after a transition and the callbacks it fired, in order. */
  datatype Transition<C> = Transition(handlers: Table<C>, fired: seq<Firing<C>>)

  datatype WriteError = NoConnection | TransportError(reason: string)

  // ---------------------------------------------------------------------------
  // Firing logs

  /** The ids a log of firings mentions. */
  function FiredIds<C>(fired: seq<Firing<C>>): (ids: set<Id>)
    ensures forall i | 0 <= i < |fired| :: fired[i].id in ids
    ensures forall id | id in ids :: exists i | 0 <= i < |fired| :: fired[i].id == id
  {
    set i | 0 <= i < |fired| :: fired[i].id
  }

  /** No id fires twice in the log. */
  ghost predicate Distinct<C>(fired: seq<Firing<C>>) {
    forall i, j | 0 <= i < j < |fired| :: fired[i].id != fired[j].id
  }

  /** The contract every removing transition keeps: it fires only entries of the
      old table, each at most once and with the callback stored for it, and the new
      table is the old one minus exactly the entries that fired. */
  ghost predicate FiresWhatItRemoves<C>(before: Table<C>, after: Table<C>, fired: seq<Firing<C>>) {
    && Distinct(fired)
    && (forall i | 0 <= i < |fired| ::
          fired[i].id in before && fired[i].callback == before[fired[i].id].callback)
    && after == before - FiredIds(fired)
  }

  lemma FiredIdsSingleton<C>(f: Firing<C>)
    ensures FiredIds([f]) == {f.id}
  {
    assert [f][0] == f;
  }

  lemma {:induction false} FiredIdsAppend<C>(a: seq<Firing<C>>, b: seq<Firing<C>>)
    ensures FiredIds(a + b) == FiredIds(a) + FiredIds(b)
  {
    var ab := a + b;
    forall id | id in FiredIds(ab) ensures id in FiredIds(a) + FiredIds(b) {
      var i :| 0 <= i < |ab| && ab[i].id == id;
      if i < |a| {
        assert ab[i] == a[i];
      } else {
        assert ab[i] == b[i - |a|];
      }
    }
    forall id | id in FiredIds(a) + FiredIds(b) ensures id in FiredIds(ab) {
      if id in FiredIds(a) {
        var i :| 0 <= i < |a| && a[i].id == id;
        assert ab[i] == a[i];
      } else {
        var i :| 0 <= i < |b| && b[i].id == id;
        assert ab[|a| + i] == b[i];
      }
    }
  }

  /** Two logs with no id in common concatenate into a log with no repeated id. */
  lemma {:induction false} DistinctAppend<C>(a: seq<Firing<C>>, b: seq<Firing<C>>)
    requires Distinct(a) && Distinct(b)
    requires FiredIds(a) !! FiredIds(b)
    ensures Distinct(a + b)
    ensures FiredIds(a + b) == FiredIds(a) + FiredIds(b)
  {
    FiredIdsAppend(a, b);
    var ab := a + b;
    forall i, j | 0 <= i < j < |ab| ensures ab[i].id != ab[j].id {
      if j < |a| {
        assert ab[i] == a[i] && ab[j] == a[j];
      } else if i >= |a| {
        assert ab[i] == b[i - |a|] && ab[j] == b[j - |a|];
      } else {
        assert ab[i] == a[i] && ab[j] == b[j - |a|];
        assert ab[i].id in FiredIds(a) && ab[j].id in FiredIds(b);
      }
    }
  }

  /** In a log without repeats there are as many firings as fired ids. */
  lemma {:induction false} DistinctCount<C>(fired: seq<Firing<C>>)
    requires Distinct(fired)
    ensures |FiredIds(fired)| == |fired|
    decreases |fired|
  {
    if fired != [] {
      var init := fired[..|fired| - 1];
      var last := fired[|fired| - 1];
      assert fired == init + [last];
      assert Distinct(init) by {
        forall i, j | 0 <= i < j < |init| ensures init[i].id != init[j].id {
          assert init[i] == fired[i] && init[j] == fired[j];
        }
      }
      DistinctCount(init);
      FiredIdsAppend(init, [last]);
      FiredIdsSingleton(last);
      assert last.id !in FiredIds(init) by {
        forall i | 0 <= i < |init| ensures init[i].id != last.id {
          assert init[i] == fired[i];
        }
      }
    }
  }

  // ---------------------------------------------------------------------------
  // Write path

  /** `WriteMessage`: refuses to write when there is no connection handle; otherwise
      writes one frame and reports the transport's own error, if any. */
  function WriteMessage(hasConn: bool, messageType: int, data: Bytes, transportErr: Option<string>)
    : (r: Result<Frame, WriteError>)
    ensures !hasConn <==> r == Failure(NoConnection)
    ensures r.Success? <==> hasConn && transportErr.None?
    ensures r.Success? ==> r.value == Frame(messageType, data)
    ensures hasConn && transportErr.Some? ==> r == Failure(TransportError(transportErr.value))
  {
    if !hasConn then Failure(NoConnection)
    else match transportErr
      case Some(e) => Failure(TransportError(e))
      case None => Success(Frame(messageType, data))
  }

  /** The bytes put on the wire for an envelope. A failed encoding is not reported:
      the frame then carries no bytes. */
  function Marshal<D>(cmd: WsCommand<D>, encode: WsCommand<D> -> Option<Bytes>): (bs: Bytes)
    ensures encode(cmd).Some? ==> bs == encode(cmd).value
    ensures encode(cmd).None? ==> bs == []
  {
    encode(cmd).GetOr([])
  }

  /** What a send leaves behind: the table, the envelope built, and the write outcome. */
  datatype Outgoing<C, D> = Outgoing(handlers: Table<C>, cmd: WsCommand<D>, result: Result<Frame, WriteError>)

  /** `Send`: a fire-and-forget command. */
  function Send<C, D>(handlers: Table<C>, hasConn: bool, name: string, data: D,
                      encode: WsCommand<D> -> Option<Bytes>, transportErr: Option<string>)
    : (r: Outgoing<C, D>)
    ensures r.handlers == handlers
    ensures r.cmd.requestId == ""
    ensures r.cmd.cmdType == RequestType && r.cmd.command == name && r.cmd.data == data
    ensures r.result.Success? <==> hasConn && transportErr.None?
    ensures r.result.Success? ==> r.result.value == Frame(BinaryMessage, Marshal(r.cmd, encode))
    ensures encode(r.cmd).None? && r.result.Success? ==> r.result.value == Frame(BinaryMessage, [])
    ensures r.result == WriteMessage(hasConn, BinaryMessage, Marshal(r.cmd, encode), transportErr)
  {
    var cmd := NewCommand(name, data);
    Outgoing(handlers, cmd, WriteMessage(hasConn, BinaryMessage, Marshal(cmd, encode), transportErr))
  }

  // ---------------------------------------------------------------------------
  // Registration

  /** The table change of `SendRequest`: with a callback, the fresh id is stored with
      the current time; without one, nothing is stored. */
  function Register<C>(handlers: Table<C>, uid: Id, callback: Option<C>, now: int): (t: Table<C>)
    requires uid !in handlers
    ensures callback.None? ==> t == handlers
    ensures callback.Some? ==> t.Keys == handlers.Keys + {uid} && |t| == |handlers| + 1
    ensures callback.Some? ==> t[uid] == Handler(callback.value, now)
    ensures forall id | id in handlers :: id in t && t[id] == handlers[id]
  {
    match callback
    case None => handlers
    case Some(cb) => handlers[uid := Handler(cb, now)]
  }

  /** `SendRequest`: builds the envelope carrying the freshly generated id `uid`,
      registers the callback, if any, and only then writes the frame, so the entry
      stays registered even when the write fails. */
  function SendRequest<C, D>(handlers: Table<C>, hasConn: bool, uid: Id, name: string, data: D,
                             callback: Option<C>, now: int,
                             encode: WsCommand<D> -> Option<Bytes>, transportErr: Option<string>)
    : (r: Outgoing<C, D>)
    requires uid !in handlers
    ensures r.cmd.requestId == uid
    ensures r.cmd.cmdType == RequestType && r.cmd.command == name && r.cmd.data == data
    ensures callback.None? ==> r.handlers == handlers
    ensures callback.Some? ==> r.handlers.Keys == handlers.Keys + {uid}
    ensures callback.Some? ==> r.handlers[uid] == Handler(callback.value, now)
    ensures forall id | id in handlers :: id in r.handlers && r.handlers[id] == handlers[id]
    ensures r.result.Success? <==> hasConn && transportErr.None?
    ensures r.result.Success? ==> r.result.value == Frame(BinaryMessage, Marshal(r.cmd, encode))
    ensures encode(r.cmd).None? && r.result.Success? ==> r.result.value == Frame(BinaryMessage, [])
    ensures r.result == WriteMessage(hasConn, BinaryMessage, Marshal(r.cmd, encode), transportErr)
  {
    var cmd := NewCommand(name, data).(requestId := uid);
    var t := Register(handlers, uid, callback, now);
    Outgoing(t, cmd, WriteMessage(hasConn, BinaryMessage, Marshal(cmd, encode), transportErr))
  }

  /** Whether the write succeeds has no effect on the table `SendRequest` leaves. */
  lemma RegistrationIgnoresWriteOutcome<C, D>(
      handlers: Table<C>, uid: Id, name: string, data: D, callback: Option<C>, now: int,
      encode: WsCommand<D> -> Option<Bytes>,
      hasConn1: bool, err1: Option<string>, hasConn2: bool, err2: Option<string>)
    requires uid !in handlers
    ensures SendRequest(handlers, hasConn1, uid, name, data, callback, now, encode, err1).handlers
         == SendRequest(handlers, hasConn2, uid, name, data, callback, now, encode, err2).handlers
  {
  }

  // ---------------------------------------------------------------------------
  // Dispatch

  /** The correlation id of an inbound frame the read loop treats as a response:
      a binary frame that decodes to an envelope of response type. */
  function ResponseId(frame: Frame, decode: Bytes -> Option<TempCommand>): (r: Option<Id>)
    ensures r.Some? <==>
      frame.messageType == BinaryMessage && decode(frame.payload).Some? && IsResponse(decode(frame.payload).value)
    ensures r.Some? ==> r.value == decode(frame.payload).value.requestId
  {
    if frame.messageType != BinaryMessage then None
    else match decode(frame.payload)
      case None => None
      case Some(t) => if IsResponse(t) then Some(t.requestId) else None
  }

  /** The binary-frame branch of `loopReadMessage`: a response whose id is pending
      fires that callback with 200 and the whole raw frame, then removes the entry;
      anything else is dropped without touching the table. */
  function Dispatch<C>(handlers: Table<C>, frame: Frame, decode: Bytes -> Option<TempCommand>)
    : (r: Transition<C>)
    ensures FiresWhatItRemoves(handlers, r.handlers, r.fired)
    ensures |r.fired| <= 1
    ensures r.fired != [] <==> ResponseId(frame, decode).Some? && ResponseId(frame, decode).value in handlers
    ensures r.fired != [] ==> r.fired[0].id == ResponseId(frame, decode).value
    ensures forall i | 0 <= i < |r.fired| ::
              r.fired[i].status == StatusOK && r.fired[i].data == Some(frame.payload)
  {
    if frame.messageType != BinaryMessage then Transition(handlers, [])
    else match decode(frame.payload)
      case None => Transition(handlers, [])
      case Some(res) =>
        if IsResponse(res) && res.requestId in handlers then
          var h := handlers[res.requestId];
          var fired := [Firing(res.requestId, h.callback, StatusOK, Some(frame.payload))];
          FiredIdsSingleton(fired[0]);
          Transition(handlers - {res.requestId}, fired)
        else
          Transition(handlers, [])
  }

  /** A response for an id that is not pending (never registered, already answered,
      or already timed out) is a no-op. */
  lemma UnknownResponseIsNoop<C>(handlers: Table<C>, frame: Frame, decode: Bytes -> Option<TempCommand>)
    requires ResponseId(frame, decode).Some? ==> ResponseId(frame, decode).value !in handlers
    ensures Dispatch(handlers, frame, decode) == Transition(handlers, [])
  {
  }

  /** Delivering the same response twice fires its callback only the first time. */
  lemma {:induction false} DuplicateResponseIsNoop<C>(handlers: Table<C>, frame: Frame, decode: Bytes -> Option<TempCommand>)
    ensures var r := Dispatch(handlers, frame, decode);
            Dispatch(r.handlers, frame, decode) == Transition(r.handlers, [])
  {
    var r := Dispatch(handlers, frame, decode);
    if ResponseId(frame, decode).Some? {
      var id := ResponseId(frame, decode).value;
      if id in handlers {
        FiredIdsSingleton(r.fired[0]);
      }
      assert id !in r.handlers;
    }
    UnknownResponseIsNoop(r.handlers, frame, decode);
  }

  /** The callback receives 200 whatever `Status` the server put in its reply. */
  lemma ServerStatusIsNotForwarded<C>(handlers: Table<C>, frame: Frame, decode: Bytes -> Option<TempCommand>, res: WsResult)
    requires frame.messageType == BinaryMessage
    requires decode(frame.payload) == Some(ResultView(res))
    requires res.cmdType == ResponseType && res.requestId in handlers
    ensures Dispatch(handlers, frame, decode).fired
         == [Firing(res.requestId, handlers[res.requestId].callback, StatusOK, Some(frame.payload))]
  {
  }

  /** A frame that decodes to the client's own request, as `SendRequest` built it, is
      not a response: dispatching it, even against the table that request just
      registered in, fires nothing and leaves the table unchanged. */
  lemma {:induction false} OwnRequestEchoIsIgnored<C, D>(
      handlers: Table<C>, hasConn: bool, uid: Id, name: string, data: D, callback: Option<C>, now: int,
      encode: WsCommand<D> -> Option<Bytes>, transportErr: Option<string>,
      frame: Frame, decode: Bytes -> Option<TempCommand>)
    requires uid !in handlers
    requires decode(frame.payload)
          == Some(RequestView(SendRequest(handlers, hasConn, uid, name, data, callback, now, encode, transportErr).cmd))
    ensures var r := SendRequest(handlers, hasConn, uid, name, data, callback, now, encode, transportErr);
            Dispatch(r.handlers, frame, decode) == Transition(r.handlers, [])
  {
    var r := SendRequest(handlers, hasConn, uid, name, data, callback, now, encode, transportErr);
    RequestIsNeverResponse(name, data, uid);
    UnknownResponseIsNoop(r.handlers, frame, decode);
  }

  /** Expiry is permanent: an entry expired at `now` is expired at every later time. */
  lemma ExpiryIsMonotone<C>(handlers: Table<C>, now: int, later: int, timeout: int)
    requires now <= later
    ensures Expired(handlers, now, timeout) <= Expired(handlers, later, timeout)
  {
  }

  // ---------------------------------------------------------------------------
  // Timeout sweep

  /** The entries strictly older than the timeout at time `now`. */
  function Expired<C>(handlers: Table<C>, now: int, timeout: int): (ids: set<Id>)
    ensures ids <= handlers.Keys
    ensures forall id | id in handlers :: id in ids <==> now - handlers[id].ts > timeout
  {
    set id | id in handlers && now - handlers[id].ts > timeout
  }

  /** What one run of the per-second sweep may do, in any visiting order: fire 408 with
      nil data for exactly the expired entries, and remove exactly those. */
  ghost predicate IsSweep<C>(before: Table<C>, now: int, timeout: int, after: Table<C>, fired: seq<Firing<C>>) {
    && FiresWhatItRemoves(before, after, fired)
    && FiredIds(fired) == Expired(before, now, timeout)
    && (forall i | 0 <= i < |fired| :: fired[i].status == StatusRequestTimeout && fired[i].data == None)
  }

  /** The `Range` body of `timeoutCheck`, visiting the entries in an unspecified order. */
  method Sweep<C>(handlers: Table<C>, now: int, timeout: int) returns (after: Table<C>, fired: seq<Firing<C>>)
    ensures IsSweep(handlers, now, timeout, after, fired)
  {
    after := handlers;
    fired := [];
    var remaining := handlers.Keys;
    while remaining != {}
      invariant remaining <= handlers.Keys
      invariant FiredIds(fired) == Expired(handlers, now, timeout) - remaining
      invariant Distinct(fired)
      invariant forall i | 0 <= i < |fired| ::
                  fired[i].id in handlers && fired[i].callback == handlers[fired[i].id].callback
      invariant forall i | 0 <= i < |fired| ::
                  fired[i].status == StatusRequestTimeout && fired[i].data == None
      invariant after == handlers - FiredIds(fired)
      decreases remaining
    {
      var id :| id in remaining;
      var h := handlers[id];
      if now - h.ts > timeout {
        var f := Firing(id, h.callback, StatusRequestTimeout, None);
        FiredIdsSingleton(f);
        DistinctAppend(fired, [f]);
        fired := fired + [f];
        after := after - {id};
      }
      remaining := remaining - {id};
    }
  }

  /** The visiting order only changes the order of the firings: any two sweeps at the
      same time leave the same table and fire the same set of callbacks, equally often. */
  lemma {:induction false} SweepOrderIrrelevant<C>(
      before: Table<C>, now: int, timeout: int,
      after1: Table<C>, fired1: seq<Firing<C>>, after2: Table<C>, fired2: seq<Firing<C>>)
    requires IsSweep(before, now, timeout, after1, fired1)
    requires IsSweep(before, now, timeout, after2, fired2)
    ensures after1 == after2
    ensures |fired1| == |fired2|
    ensures forall f :: f in fired1 <==> f in fired2
  {
    DistinctCount(fired1);
    DistinctCount(fired2);
    forall f | f in fired1 ensures f in fired2 {
      SweepFiringIsDetermined(before, now, timeout, after1, fired1, after2, fired2, f);
    }
    forall f | f in fired2 ensures f in fired1 {
      SweepFiringIsDetermined(before, now, timeout, after2, fired2, after1, fired1, f);
    }
  }

  lemma SweepFiringIsDetermined<C>(
      before: Table<C>, now: int, timeout: int,
      after1: Table<C>, fired1: seq<Firing<C>>, after2: Table<C>, fired2: seq<Firing<C>>, f: Firing<C>)
    requires IsSweep(before, now, timeout, after1, fired1)
    requires IsSweep(before, now, timeout, after2, fired2)
    requires f in fired1
    ensures f in fired2
  {
    var i :| 0 <= i < |fired1| && fired1[i] == f;
    assert f.id in FiredIds(fired2);
    var j :| 0 <= j < |fired2| && fired2[j].id == f.id;
    assert fired2[j] == f;
  }

  /** After a sweep at `now`, no pending entry is older than the timeout, and every
      entry still pending is exactly as it was. */
  lemma SweepLeavesNoStaleEntry<C>(before: Table<C>, now: int, timeout: int, after: Table<C>, fired: seq<Firing<C>>)
    requires IsSweep(before, now, timeout, after, fired)
    ensures forall id | id in after :: now - after[id].ts <= timeout
    ensures forall id | id in before && now - before[id].ts <= timeout :: id in after && after[id] == before[id]
  {
  }
}
