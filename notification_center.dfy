/** The notification bell (src/components/NotificationCenter.tsx): two pieces of state,
    the notification list and the unread counter, changed by a fetch, a realtime insert,
    marking one notification read and marking all read. The backend's answers (the
    signed-in user, the fetched rows, the inserted row) are parameters. */
module NotificationCenter {
  import opened Wrappers

  datatype Notification = Notification(
    id: string, title: string, message: string, kind: string, read: bool, createdAt: string)

  /** `data.filter(n => !n.read).length`. */
  function CountUnread(s: seq<Notification>): (r: nat)
    ensures r <= |s|
  {
    if s == [] then 0 else CountUnread(s[..|s| - 1]) + (if s[|s| - 1].read then 0 else 1)
  }

  /** `prev.map(n => n.id === id ? { ...n, read: true } : n)`. */
  function MarkRead(s: seq<Notification>, id: string): (r: seq<Notification>)
    ensures |r| == |s|
    ensures forall i :: 0 <= i < |s| ==> r[i] == if s[i].id == id then s[i].(read := true) else s[i]
  {
    seq(|s|, i requires 0 <= i < |s| => if s[i].id == id then s[i].(read := true) else s[i])
  }

  /** `prev.map(n => ({ ...n, read: true }))`. */
  function MarkAll(s: seq<Notification>): (r: seq<Notification>)
    ensures |r| == |s| && forall i :: 0 <= i < |s| ==> r[i] == s[i].(read := true)
  {
    seq(|s|, i requires 0 <= i < |s| => s[i].(read := true))
  }

  /** No two notifications share an id. */
  predicate DistinctIds(s: seq<Notification>) {
    forall i, j :: 0 <= i < j < |s| ==> s[i].id != s[j].id
  }

  class Center {
    var notifications: seq<Notification>
    var unreadCount: nat

    /** The counter agrees with the list. */
    predicate Consistent()
      reads this
    {
      unreadCount == CountUnread(notifications)
    }

    /** The badge on the bell and the "Mark all read" button. */
    predicate ShowBadge()
      reads this
    {
      unreadCount > 0
    }

    constructor ()
      ensures notifications == [] && unreadCount == 0 && Consistent()
    {
      notifications := [];
      unreadCount := 0;
    }

    /** `fetchNotifications`: with a signed-in user and rows returned, the list is
        replaced and the counter recomputed; otherwise nothing changes. */
    method Fetch(signedIn: bool, data: Option<seq<Notification>>)
      modifies this
      ensures signedIn && data.Some? ==>
                notifications == data.value && unreadCount == CountUnread(data.value)
      ensures !(signedIn && data.Some?) ==>
                notifications == old(notifications) && unreadCount == old(unreadCount)
      ensures signedIn && data.Some? ==> Consistent()
    {
      if !signedIn {
        return;
      }
      if data.Some? {
        notifications := data.value;
        unreadCount := CountUnread(data.value);
      }
    }

    /** The realtime insert handler: the new row goes first and the counter rises by one,
        whatever the row's `read` flag. */
    method OnInsert(n: Notification)
      modifies this
      ensures notifications == [n] + old(notifications)
      ensures unreadCount == old(unreadCount) + 1
      ensures old(Consistent()) && !n.read ==> Consistent()
    {
      CountUnreadCons(n, notifications);
      notifications := [n] + notifications;
      unreadCount := unreadCount + 1;
    }

    /** `markAsRead`: every entry with that id becomes read, and the counter drops by one
        but never below zero. */
    method MarkAsRead(id: string)
      modifies this
      ensures notifications == MarkRead(old(notifications), id)
      ensures unreadCount == if old(unreadCount) == 0 then 0 else old(unreadCount) - 1
    {
      notifications := MarkRead(notifications, id);
      unreadCount := if unreadCount == 0 then 0 else unreadCount - 1;
    }

    /** A click on entry `index`: `!notification.read && markAsRead(notification.id)`.
        With distinct ids this keeps the counter equal to the number of unread entries. */
    method Click(index: nat)
      requires index < |notifications|
      modifies this
      ensures old(notifications[index].read) ==>
                notifications == old(notifications) && unreadCount == old(unreadCount)
      ensures !old(notifications[index].read) ==>
                notifications == MarkRead(old(notifications), old(notifications[index].id)) &&
                unreadCount == if old(unreadCount) == 0 then 0 else old(unreadCount) - 1
      ensures old(Consistent()) && DistinctIds(old(notifications)) ==> Consistent()
    {
      var n := notifications[index];
      if !n.read {
        if Consistent() && DistinctIds(notifications) {
          UnreadPositive(notifications, index);
          MarkOneRead(notifications, index);
        }
        MarkAsRead(n.id);
      }
    }

    /** `markAllAsRead`: with a signed-in user every entry becomes read and the counter 0. */
    method MarkAllAsRead(signedIn: bool)
      modifies this
      ensures signedIn ==> notifications == MarkAll(old(notifications)) && unreadCount == 0
      ensures signedIn ==> Consistent()
      ensures !signedIn ==> notifications == old(notifications) && unreadCount == old(unreadCount)
    {
      if !signedIn {
        return;
      }
      MarkAllNoneUnread(notifications);
      notifications := MarkAll(notifications);
      unreadCount := 0;
    }
  }

  lemma {:induction false} CountUnreadCons(n: Notification, s: seq<Notification>)
    ensures CountUnread([n] + s) == CountUnread(s) + (if n.read then 0 else 1)
    decreases |s|
  {
    if s != [] {
      var t := [n] + s;
      assert t[..|t| - 1] == [n] + s[..|s| - 1];
      CountUnreadCons(n, s[..|s| - 1]);
    }
  }

  /** The counter is positive exactly when some entry is unread. */
  lemma {:induction false} UnreadExists(s: seq<Notification>)
    ensures CountUnread(s) > 0 <==> exists i :: 0 <= i < |s| && !s[i].read
  {
    if s != [] {
      var n := |s| - 1;
      UnreadExists(s[..n]);
      if exists i :: 0 <= i < |s| && !s[i].read {
        var i :| 0 <= i < |s| && !s[i].read;
        if i < n {
          assert s[..n][i] == s[i];
        }
      }
      if exists i :: 0 <= i < n && !s[..n][i].read {
        var i :| 0 <= i < n && !s[..n][i].read;
        assert s[i] == s[..n][i];
      }
    }
  }

  lemma UnreadPositive(s: seq<Notification>, index: nat)
    requires index < |s| && !s[index].read
    ensures CountUnread(s) > 0
  {
    UnreadExists(s);
  }

  /** With distinct ids, marking an unread entry read lowers the unread count by exactly
      one. */
  lemma {:induction false} MarkOneRead(s: seq<Notification>, index: nat)
    requires index < |s| && !s[index].read && DistinctIds(s)
    ensures CountUnread(MarkRead(s, s[index].id)) == CountUnread(s) - 1
  {
    var n := |s| - 1;
    var id := s[index].id;
    MarkReadLast(s, id);
    if index == n {
      LastIdNotBefore(s);
      MarkReadAbsent(s[..n], id);
    } else {
      assert DistinctIds(s[..n]) && s[..n][index] == s[index];
      MarkOneRead(s[..n], index);
      assert s[n].id != id;
    }
  }

  /** The count after marking, split into the entries before the last one and the last. */
  lemma MarkReadLast(s: seq<Notification>, id: string)
    requires s != []
    ensures CountUnread(MarkRead(s, id)) ==
              CountUnread(MarkRead(s[..|s| - 1], id)) + (if s[|s| - 1].read || s[|s| - 1].id == id then 0 else 1)
  {
    var r := MarkRead(s, id);
    assert r[..|r| - 1] == MarkRead(s[..|s| - 1], id);
  }

  /** With distinct ids, the last entry's id is on no earlier entry. */
  lemma LastIdNotBefore(s: seq<Notification>)
    requires s != [] && DistinctIds(s)
    ensures forall i :: 0 <= i < |s| - 1 ==> s[i].id != s[|s| - 1].id
  {
  }

  /** Marking an id that no entry has changes nothing. */
  lemma MarkReadAbsent(s: seq<Notification>, id: string)
    requires forall i :: 0 <= i < |s| ==> s[i].id != id
    ensures MarkRead(s, id) == s
  {
  }

  lemma {:induction false} MarkAllNoneUnread(s: seq<Notification>)
    ensures CountUnread(MarkAll(s)) == 0
  {
    if s != [] {
      var n := |s| - 1;
      assert MarkAll(s)[..n] == MarkAll(s[..n]);
      MarkAllNoneUnread(s[..n]);
    }
  }

  /** Marking all read twice is the same as once. */
  lemma MarkAllIdempotent(s: seq<Notification>)
    ensures MarkAll(MarkAll(s)) == MarkAll(s)
  {
  }

  /** Marking read never raises the unread count. */
  lemma {:induction false} MarkReadNotMore(s: seq<Notification>, id: string)
    ensures CountUnread(MarkRead(s, id)) <= CountUnread(s)
  {
    if s != [] {
      var n := |s| - 1;
      assert MarkRead(s, id)[..n] == MarkRead(s[..n], id);
      MarkReadNotMore(s[..n], id);
    }
  }

  lemma MarkReadKeepsIds(s: seq<Notification>, id: string)
    ensures forall i :: 0 <= i < |s| ==> MarkRead(s, id)[i].id == s[i].id
    ensures DistinctIds(s) ==> DistinctIds(MarkRead(s, id))
  {
  }

  /** What can happen to the bell after its first fetch: a realtime insert, a click on
      entry `index` (ignored when there is no such entry), or "Mark all read". */
  datatype Happening = Inserted(n: Notification) | Clicked(index: nat) | MarkedAllRead

  /** A session that starts with a fetch and then sees inserts, clicks and "Mark all
      read" in any order, where every insert is an unread row with a fresh id, keeps the
      counter equal to the number of unread entries, so the badge shows exactly when some
      entry is unread. */
  method Session(c: Center, data: seq<Notification>, happenings: seq<Happening>)
    requires DistinctIds(data)
    requires forall k :: 0 <= k < |happenings| && happenings[k].Inserted? ==> !happenings[k].n.read
    requires forall k, i :: 0 <= k < |happenings| && happenings[k].Inserted? && 0 <= i < |data| ==>
               happenings[k].n.id != data[i].id
    requires forall k, l :: 0 <= k < l < |happenings| && happenings[k].Inserted? && happenings[l].Inserted? ==>
               happenings[k].n.id != happenings[l].n.id
    modifies c
    ensures c.Consistent()
    ensures c.ShowBadge() <==> exists i :: 0 <= i < |c.notifications| && !c.notifications[i].read
  {
    c.Fetch(true, Some(data));
    ghost var seen := set i | 0 <= i < |data| :: data[i].id;
    var k := 0;
    while k < |happenings|
      invariant 0 <= k <= |happenings|
      invariant c.Consistent() && DistinctIds(c.notifications)
      invariant forall i :: 0 <= i < |c.notifications| ==> c.notifications[i].id in seen
      invariant forall l :: k <= l < |happenings| && happenings[l].Inserted? ==> happenings[l].n.id !in seen
    {
      ghost var before := c.notifications;
      match happenings[k] {
        case Inserted(n) =>
          c.OnInsert(n);
          assert c.notifications == [n] + before;
          seen := seen + {n.id};
        case Clicked(index) =>
          if index < |c.notifications| {
            MarkReadKeepsIds(before, before[index].id);
            c.Click(index);
          }
        case MarkedAllRead =>
          c.MarkAllAsRead(true);
          assert forall i :: 0 <= i < |before| ==> c.notifications[i].id == before[i].id;
      }
      k := k + 1;
    }
    UnreadExists(c.notifications);
  }
}
