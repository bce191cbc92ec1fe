/**
 * The records shared by the store and the watch loop: a notification, the
 * response that carries a batch of them, and the stored (serialised) form.
 */
module Notifications {
  import opened Wrappers

  /** The `data` a producer posted: a JSON value the store keeps verbatim. */
  datatype Payload = Payload(json: string)

  /**
   * One entry of a topic's log. `index` is assigned by the store and is
   * only meaningful together with a generation ID; `timestamp` is the
   * store's clock at append time.
   */
  datatype Notification = Notification(index: nat, timestamp: int, data: Payload)

  /** Indices run 1..n in list order. */
  predicate IndexedFromOne(ns: seq<Notification>) {
    forall i :: 0 <= i < |ns| ==> ns[i].index == i + 1
  }

  /** A batch of notifications together with the generation ID of the data they come from. */
  datatype NotificationsResponse = NotificationsResponse(generationID: string, notifications: seq<Notification>)

  /**
   * A value as it sits in a topic bucket: the serialised form of a
   * notification, or bytes that do not decode as one.
   */
  datatype Record = Marshalled(notification: Notification) | Malformed(bytes: seq<char>)

  datatype StoreError = UnmarshalError(bytes: seq<char>)

  /** Serialises a notification for storage. */
  function Marshal(n: Notification): (r: Record)
    ensures Unmarshal(r) == Success(n)
  {
    Marshalled(n)
  }

  /** Decodes a stored value; undecodable bytes are an error. */
  function Unmarshal(r: Record): Result<Notification, StoreError> {
    match r
    case Marshalled(n) => Success(n)
    case Malformed(b) => Failure(UnmarshalError(b))
  }

  /**
   * Decodes records in order, stopping at the first one that does not
   * decode, as a read loop that returns on the first unmarshal error does.
   */
  function UnmarshalAll(rs: seq<Record>): (r: Result<seq<Notification>, StoreError>)
    ensures r.Success? <==> forall i :: 0 <= i < |rs| ==> rs[i].Marshalled?
    ensures r.Success? ==> |r.value| == |rs|
    ensures r.Success? ==> forall i :: 0 <= i < |rs| ==> Unmarshal(rs[i]) == Success(r.value[i])
    ensures r.Failure? ==> exists i :: 0 <= i < |rs| && rs[i].Malformed? && r.error == UnmarshalError(rs[i].bytes)
    decreases |rs|
  {
    if |rs| == 0 then Success([])
    else match Unmarshal(rs[0])
      case Failure(e) => Failure(e)
      case Success(n) =>
        match UnmarshalAll(rs[1..])
        case Failure(e) =>
          assert forall i :: 0 <= i < |rs[1..]| ==> rs[1..][i] == rs[i + 1];
          Failure(e)
        case Success(ns) =>
          assert forall i :: 0 < i < |rs| ==> rs[i] == rs[1..][i - 1];
          Success([n] + ns)
  }
}
