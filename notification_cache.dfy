/** The browser's view of the notifications: the module-level cache of notifications.js (a list
    and an `unreadCount` counter changed by the push handler, the reload, mark-one and mark-all),
    the stateless variant of script.js that recomputes the count on every load, and the badge
    and footer rules both scripts apply. */
module NotificationCache {
  import opened Js
  import opened NotificationStore

  /** The bell badge. */
  datatype Badge = Hidden | Shown(text: string)

  /** Both scripts' badge rule: hidden unless the count is positive, capped at "99+". */
  function BadgeFor(unreadCount: int): (b: Badge)
    ensures b.Hidden? <==> unreadCount <= 0
    ensures b.Shown? ==> 1 <= |b.text| <= 3
    ensures b.Shown? && unreadCount > 99 ==> b.text == "99+"
    ensures b.Shown? && unreadCount <= 99 ==> ParseIntString(b.text) == Some(unreadCount)
  {
    if unreadCount <= 0 then Hidden
    else if unreadCount > 99 then Shown("99+")
    else
      ParseIntOfDecimal(unreadCount);
      NatToStringShort(unreadCount);
      Shown(NatToString(unreadCount))
  }

  lemma NatToStringShort(n: nat)
    requires n <= 99
    ensures |NatToString(n)| <= 2
  {
  }

  /** The footer ("mark all as read") after a render: hidden for an empty list, shown when
      something is unread, otherwise left as it was. */
  function FooterAfter(wasShown: bool, listLength: nat, unreadCount: int): (shown: bool)
    ensures listLength == 0 ==> !shown
    ensures shown ==> listLength > 0 && (unreadCount > 0 || wasShown)
    ensures listLength > 0 && unreadCount > 0 ==> shown
    ensures listLength > 0 && unreadCount <= 0 ==> shown == wasShown
  {
    if listLength == 0 then false
    else if unreadCount > 0 then true
    else wasShown
  }

  /** The first position of a notification with the given id (`Array.prototype.find`). */
  function FindIndex(s: seq<Notification>, id: int): (r: Option<nat>)
    ensures r.Some? ==> r.value < |s| && s[r.value].id == id
                        && forall k :: 0 <= k < r.value ==> s[k].id != id
    ensures r.None? ==> forall k :: 0 <= k < |s| ==> s[k].id != id
  {
    if s == [] then None
    else if s[0].id == id then Some(0)
    else match FindIndex(s[1..], id)
         case None => None
         case Some(k) => Some(k + 1)
  }

  /** `notifications.forEach(n => n.is_read = 1)`. */
  function AllRead(s: seq<Notification>): (r: seq<Notification>)
    ensures |r| == |s|
    ensures forall k :: 0 <= k < |s| ==> r[k] == s[k].(isRead := true)
  {
    if s == [] then [] else [s[0].(isRead := true)] + AllRead(s[1..])
  }

  lemma {:induction false} AllReadClearsUnread(s: seq<Notification>)
    ensures CountUnread(AllRead(s)) == 0
  {
    if s != [] {
      AllReadClearsUnread(s[1..]);
      assert AllRead(s)[1..] == AllRead(s[1..]);
    }
  }

  lemma {:induction false} FlipCountsUnread(s: seq<Notification>, i: nat)
    requires i < |s| && !s[i].isRead
    ensures CountUnread(s[i := s[i].(isRead := true)]) == CountUnread(s) - 1
  {
    if i > 0 {
      FlipCountsUnread(s[1..], i - 1);
      assert s[i := s[i].(isRead := true)][1..] == s[1..][i - 1 := s[i].(isRead := true)];
    } else {
      assert s[i := s[i].(isRead := true)][1..] == s[1..];
    }
  }

  /** The module-level state of notifications.js. */
  class Cache {
    var notifications: seq<Notification>
    var unreadCount: int

    /** The counter equals the number of unread entries. */
    ghost predicate Consistent()
      reads this
    {
      unreadCount == CountUnread(notifications)
    }

    constructor ()
      ensures notifications == [] && unreadCount == 0 && Consistent()
    {
      notifications := [];
      unreadCount := 0;
    }

    /** The `new_notification` handler: a non-null payload goes to the front and counts as
        unread; a null payload changes nothing. */
    method OnNewNotification(payload: Option<Notification>)
      modifies this
      ensures payload.None? ==> notifications == old(notifications) && unreadCount == old(unreadCount)
      ensures payload.Some? ==>
                notifications == [payload.value] + old(notifications) && unreadCount == old(unreadCount) + 1
      ensures old(Consistent()) && (payload.Some? ==> !payload.value.isRead) ==> Consistent()
    {
      if payload.Some? {
        notifications := [payload.value] + notifications;
        unreadCount := unreadCount + 1;
        assert notifications[1..] == old(notifications);
      }
    }

    /** loadNotifications: on a successful fetch the list is replaced by the response
        (`data || []`) and the counter recomputed; a failed fetch changes nothing. */
    method Load(fetchOk: bool, data: Option<seq<Notification>>)
      modifies this
      ensures !fetchOk ==> notifications == old(notifications) && unreadCount == old(unreadCount)
      ensures fetchOk ==> notifications == (if data.Some? then data.value else [])
      ensures fetchOk ==> Consistent()
      ensures old(Consistent()) ==> Consistent()
    {
      if fetchOk {
        notifications := if data.Some? then data.value else [];
        unreadCount := CountUnread(notifications);
      }
    }

    /** markAsRead, once the PUT request has resolved: the first entry with the id is flipped
        to read and the counter lowered, but only when that entry was unread. */
    method MarkAsRead(id: int, requestOk: bool)
      modifies this
      ensures var k := FindIndex(old(notifications), id);
              if requestOk && k.Some? && !old(notifications)[k.value].isRead
              then notifications == old(notifications)[k.value := old(notifications)[k.value].(isRead := true)]
                   && unreadCount == old(unreadCount) - 1
              else notifications == old(notifications) && unreadCount == old(unreadCount)
      ensures old(Consistent()) ==> Consistent() && unreadCount >= 0
    {
      if requestOk {
        var k := FindIndex(notifications, id);
        if k.Some? && !notifications[k.value].isRead {
          FlipCountsUnread(notifications, k.value);
          notifications := notifications[k.value := notifications[k.value].(isRead := true)];
          unreadCount := unreadCount - 1;
        }
      }
    }

    /** markAllAsRead: nothing to do without an unread entry; otherwise, once every PUT has
        resolved, all entries are read and the counter is 0. */
    method MarkAllAsRead(requestsOk: bool)
      modifies this
      ensures CountUnread(old(notifications)) == 0 || !requestsOk ==>
                notifications == old(notifications) && unreadCount == old(unreadCount)
      ensures CountUnread(old(notifications)) > 0 && requestsOk ==>
                notifications == AllRead(old(notifications)) && unreadCount == 0 && Consistent()
      ensures old(Consistent()) ==> Consistent()
    {
      if CountUnread(notifications) == 0 {
        return;
      }
      if requestsOk {
        AllReadClearsUnread(notifications);
        notifications := AllRead(notifications);
        unreadCount := 0;
      }
    }
  }

  /** Marking the same id twice changes no more than marking it once. */
  method MarkTwiceSameAsOnce(c: Cache, id: int)
    requires c.Consistent()
    modifies c
    ensures c.Consistent()
    ensures var k := FindIndex(old(c.notifications), id);
            c.unreadCount == old(c.unreadCount) - (if k.Some? && !old(c.notifications)[k.value].isRead then 1 else 0)
  {
    c.MarkAsRead(id, true);
    var k := FindIndex(old(c.notifications), id);
    if k.Some? {
      assert FindIndex(c.notifications, id) == k by {
        FindIndexAfterFlip(old(c.notifications), id, k.value);
      }
    }
    c.MarkAsRead(id, true);
  }

  lemma FindIndexAfterFlip(s: seq<Notification>, id: int, k: nat)
    requires FindIndex(s, id) == Some(k)
    ensures FindIndex(s[k := s[k].(isRead := true)], id) == Some(k)
  {
    var t := s[k := s[k].(isRead := true)];
    assert t[k].id == id;
    assert forall j :: 0 <= j < k ==> t[j] == s[j];
    FindIndexFirst(t, id, k);
  }

  lemma {:induction false} FindIndexFirst(s: seq<Notification>, id: int, k: nat)
    requires k < |s| && s[k].id == id && forall j :: 0 <= j < k ==> s[j].id != id
    ensures FindIndex(s, id) == Some(k)
  {
    if k > 0 {
      FindIndexFirst(s[1..], id, k - 1);
    }
  }

  // ------------------------------------------------------------ script.js

  /** What script.js renders after a load: the list, the badge and the footer. */
  datatype View = View(list: seq<Notification>, badge: Badge, footerShown: bool)

  /** script.js loadNotifications + updateNotificationUI: the count is recomputed from the
      fetched rows (`!n.is_read`) on every load; the socket handler simply reloads. */
  function ScriptLoad(data: Option<seq<Notification>>, footerWasShown: bool): (v: View)
    ensures v.list == if data.Some? then data.value else []
    ensures v.badge == BadgeFor(CountUnread(v.list))
    ensures v.footerShown == FooterAfter(footerWasShown, |v.list|, CountUnread(v.list))
    // What the user sees: the badge disappears exactly when every fetched entry is read, and
    // otherwise reads as the number of unread entries (or "99+").
    ensures v.badge.Hidden? <==> forall i :: 0 <= i < |v.list| ==> v.list[i].isRead
    ensures v.badge.Shown? && CountUnread(v.list) <= 99 ==> ParseIntString(v.badge.text) == Some(CountUnread(v.list))
    ensures v.footerShown ==> v.list != []
    ensures v.list != [] && (exists i :: 0 <= i < |v.list| && !v.list[i].isRead) ==> v.footerShown
  {
    var list := if data.Some? then data.value else [];
    CountUnreadZero(list);
    View(list, BadgeFor(CountUnread(list)), FooterAfter(footerWasShown, |list|, CountUnread(list)))
  }

  /** Loading the server's listing, the client's count is the server's unread count capped at
      the listing's page size; in particular the badge is hidden exactly when nothing is unread. */
  lemma ClientCountMatchesServer(rows: seq<Notification>, now: int, footerWasShown: bool)
    requires UnreadNeverExpire(rows)
    ensures CountUnread(ScriptLoad(Some(Listing(rows, now)), footerWasShown).list) == Min(PageSize, CountUnread(rows))
    ensures ScriptLoad(Some(Listing(rows, now)), footerWasShown).badge.Hidden? <==> CountUnread(rows) == 0
  {
    ListingShowsUnread(rows, now);
  }
}
