/**
 * The watch session manager: validation of a watch request and one
 * iteration of the polling loop, as a pure step on the session cursor.
 * The connection is represented only by whether a write succeeded; the
 * pause between iterations is not modelled.
 */
module Watch {
  import opened Wrappers
  import opened Keys
  import opened Notifications

  /**
   * A watch request as it reaches the handler: the `{topic}` route
   * variable (absent when the route supplies none) and the raw
   * `generationID` and `fromIndex` query values ("" when not given).
   */
  datatype WatchRequest = WatchRequest(topic: Option<string>, generationID: string, fromIndex: string)

  datatype RequestError = TopicMissing | InvalidFromIndex(error: NumError)

  /** The loop state: the generation ID passed to every read and the index to read from. */
  datatype Cursor = Cursor(genID: string, idx: nat)

  /** The arguments a session is started with. */
  datatype Session = Session(topic: string, cursor: Cursor)

  /**
   * Validates a watch request. A missing topic is rejected; an empty
   * `fromIndex` means 0; any other value must parse as an unsigned 64-bit
   * decimal. Only a request that passes every check starts a session.
   */
  function HandleWatchRequest(req: WatchRequest): (r: Result<Session, RequestError>)
    ensures req.topic.None? ==> r == Failure(TopicMissing)
    ensures r.Success? <==> req.topic.Some? && (req.fromIndex == "" || ParseUint(req.fromIndex).Success?)
    ensures r.Success? ==> r.value.topic == req.topic.value && r.value.cursor.genID == req.generationID
    ensures r.Success? ==> r.value.cursor.idx <= MaxUint64
    ensures r.Success? && req.fromIndex == "" ==> r.value.cursor.idx == 0
    ensures r.Success? && req.fromIndex != "" ==> r.value.cursor.idx == Value(req.fromIndex)
  {
    match req.topic
    case None => Failure(TopicMissing)
    case Some(topic) =>
      var raw := if req.fromIndex == "" then "0" else req.fromIndex;
      assert raw == "0" ==> Value(raw) == 0 by {
        if raw == "0" {
          assert raw[1..] == [];
        }
      }
      match ParseUint(raw)
      case Failure(e) => Failure(InvalidFromIndex(e))
      case Success(idx) => Success(Session(topic, Cursor(req.generationID, idx)))
  }

  datatype EndReason = GetFailed(error: StoreError) | WriteFailed

  /** What one loop iteration does: nothing to send, one message sent, or the end of the session. */
  datatype Tick = Idle(cursor: Cursor) | Delivered(cursor: Cursor, message: NotificationsResponse) | Ended(reason: EndReason)

  function Last(ns: seq<Notification>): Notification
    requires |ns| > 0
  {
    ns[|ns| - 1]
  }

  /**
   * One iteration of the loop given the read's result and whether the
   * write to the connection succeeded. A failed read ends the session; an
   * empty batch sends nothing; a non-empty batch is sent whole as one
   * message and moves the cursor to the index of its last notification,
   * unless the write fails, which ends the session. The generation ID is
   * never replaced.
   */
  function Step(c: Cursor, resp: Result<NotificationsResponse, StoreError>, writeOk: bool): (t: Tick)
    ensures resp.Failure? ==> t == Ended(GetFailed(resp.error))
    ensures resp.Success? && |resp.value.notifications| == 0 ==> t == Idle(c)
    ensures t.Delivered? <==> resp.Success? && |resp.value.notifications| > 0 && writeOk
    ensures t == Ended(WriteFailed) <==> resp.Success? && |resp.value.notifications| > 0 && !writeOk
    ensures t.Delivered? ==> t.message == resp.value
    ensures t.Delivered? ==> t.cursor == Cursor(c.genID, Last(resp.value.notifications).index)
  {
    match resp
    case Failure(e) => Ended(GetFailed(e))
    case Success(r) =>
      if |r.notifications| == 0 then Idle(c)
      else if !writeOk then Ended(WriteFailed)
      else Delivered(Cursor(c.genID, Last(r.notifications).index), r)
  }

  /**
   * The loop iteration with the cursor moved past the last notification
   * sent and the response's generation ID adopted, for a store whose read
   * includes the entry at `fromIndex`.
   */
  function StepPastLast(c: Cursor, resp: Result<NotificationsResponse, StoreError>, writeOk: bool): (t: Tick)
    ensures resp.Failure? ==> t == Ended(GetFailed(resp.error))
    ensures resp.Success? && |resp.value.notifications| == 0 ==> t == Idle(c)
    ensures t.Delivered? <==> resp.Success? && |resp.value.notifications| > 0 && writeOk
    ensures t == Ended(WriteFailed) <==> resp.Success? && |resp.value.notifications| > 0 && !writeOk
    ensures t.Delivered? ==> t.message == resp.value
    ensures t.Delivered? ==> t.cursor == Cursor(resp.value.generationID, Last(resp.value.notifications).index + 1)
  {
    match resp
    case Failure(e) => Ended(GetFailed(e))
    case Success(r) =>
      if |r.notifications| == 0 then Idle(c)
      else if !writeOk then Ended(WriteFailed)
      else Delivered(Cursor(r.generationID, Last(r.notifications).index + 1), r)
  }

  // ----- sessions driven by events -----

  /** Something that happens while a session is open. */
  datatype Event =
    | Produce(topic: string, data: Payload, now: int)  // a producer appends `data`
    | Poll(writeOk: bool)                              // the loop runs one iteration; `writeOk` is the outcome of a write

  /** The loop's state: its cursor and whether it is still running. */
  datatype SessionState = SessionState(cursor: Cursor, running: bool)

  function Concat(bs: seq<seq<Notification>>): seq<Notification>
    decreases |bs|
  {
    if |bs| == 0 then [] else bs[0] + Concat(bs[1..])
  }

  /** Concatenation, one batch at a time. */
  lemma ConcatCons(b: seq<Notification>, bs: seq<seq<Notification>>)
    ensures Concat([b] + bs) == b + Concat(bs)
  {
    assert ([b] + bs)[1..] == bs;
  }

  function Payloads(ns: seq<Notification>): (ps: seq<Payload>)
    ensures |ps| == |ns| && forall i :: 0 <= i < |ns| ==> ps[i] == ns[i].data
  {
    seq(|ns|, i requires 0 <= i < |ns| => ns[i].data)
  }

  /** The payloads producers appended, in order. */
  function Produced(events: seq<Event>): seq<Payload>
    decreases |events|
  {
    if |events| == 0 then []
    else (if events[0].Produce? then [events[0].data] else []) + Produced(events[1..])
  }
}
