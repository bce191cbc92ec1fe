/**
 * The in-memory store the watch tests run against: one list of
 * notifications shared by every topic, numbered 1..n in append order.
 */
module TestStore {
  import opened Wrappers
  import opened Notifications

  datatype MemoryStore = MemoryStore(notifications: seq<Notification>)

  /**
   * Appends `data` under index "length + 1", whatever the topic; always
   * succeeds and leaves the earlier entries as they were.
   */
  function Append(s: MemoryStore, topic: string, data: Payload, now: int): (r: MemoryStore)
    ensures |r.notifications| == |s.notifications| + 1
    ensures r.notifications[..|s.notifications|] == s.notifications
    ensures r.notifications[|s.notifications|] == Notification(|s.notifications| + 1, now, data)
    ensures IndexedFromOne(s.notifications) ==> IndexedFromOne(r.notifications)
  {
    MemoryStore(s.notifications + [Notification(|s.notifications| + 1, now, data)])
  }

  /**
   * Returns the list from position `fromIndex` on, whatever the topic, and
   * echoes the caller's generation ID. The slice needs `fromIndex` within
   * the list; beyond it the test store panics.
   */
  function Get(s: MemoryStore, topic: string, genID: string, fromIndex: nat): (r: Result<NotificationsResponse, StoreError>)
    requires fromIndex <= |s.notifications|
    ensures r.Success? && r.value.generationID == genID
    ensures |r.value.notifications| == |s.notifications| - fromIndex
    ensures IndexedFromOne(s.notifications) ==>
      forall n :: n in r.value.notifications <==> n in s.notifications && n.index > fromIndex
    ensures IndexedFromOne(s.notifications) ==>
      forall i :: 0 <= i < |r.value.notifications| ==> r.value.notifications[i].index == fromIndex + i + 1
  {
    var ns := s.notifications[fromIndex..];
    assert IndexedFromOne(s.notifications) ==>
      forall n :: n in s.notifications && n.index > fromIndex ==> n in ns by {
      if IndexedFromOne(s.notifications) {
        forall n | n in s.notifications && n.index > fromIndex ensures n in ns {
          var i :| 0 <= i < |s.notifications| && s.notifications[i] == n;
          assert ns[i - fromIndex] == n;
        }
      }
    }
    Success(NotificationsResponse(genID, ns))
  }
}
