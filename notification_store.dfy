/** The server's Notifications table (server.js): creating a notification and broadcasting it,
    the listing query with its lazy purge of expired rows, the unread count, the two read
    transitions and the clear endpoint. Time is an integer count of seconds, the resolution of
    SQLite's CURRENT_TIMESTAMP; the database is the sequence `rows` in insertion order. */
module NotificationStore {
  import opened Js

  /** LIMIT of the listing query. */
  const PageSize: nat := 50
  /** datetime("now", "+2 hours"): how long a read notification stays listed, in seconds. */
  const ReadRetention: int := 7200

  datatype Notification = Notification(
    id: int,                     // notification_id
    kind: string,                // type
    message: string,
    relatedId: Option<int>,      // related_item_id
    relatedType: Option<string>, // related_item_type
    isRead: bool,                // is_read <> 0
    expiresAt: Option<int>,      // expires_at
    createdAt: int)              // created_at

  // ------------------------------------------------------------ the SQL predicates

  /** `expires_at IS NOT NULL AND expires_at < CURRENT_TIMESTAMP`: what the purge deletes. */
  predicate Expired(n: Notification, now: int) {
    n.expiresAt.Some? && n.expiresAt.value < now
  }

  /** `expires_at IS NULL OR expires_at > CURRENT_TIMESTAMP`: what the listing selects. */
  predicate Visible(n: Notification, now: int) {
    n.expiresAt.None? || n.expiresAt.value > now
  }

  /** The rows left by the purge DELETE. */
  function Purge(rows: seq<Notification>, now: int): (r: seq<Notification>)
    ensures forall i :: 0 <= i < |r| ==> r[i] in rows && !Expired(r[i], now)
    ensures forall i :: 0 <= i < |rows| && !Expired(rows[i], now) ==> rows[i] in r
  {
    if rows == [] then []
    else (if Expired(rows[0], now) then [] else [rows[0]]) + Purge(rows[1..], now)
  }

  /** The rows the listing's WHERE clause selects. */
  function VisibleRows(rows: seq<Notification>, now: int): (r: seq<Notification>)
    ensures |r| <= |rows|
    ensures forall i :: 0 <= i < |r| ==> r[i] in rows && Visible(r[i], now)
    ensures forall i :: 0 <= i < |rows| && Visible(rows[i], now) ==> rows[i] in r
  {
    if rows == [] then []
    else (if Visible(rows[0], now) then [rows[0]] else []) + VisibleRows(rows[1..], now)
  }

  /** `SELECT COUNT(*) ... WHERE is_read = 0`. */
  function CountUnread(rows: seq<Notification>): nat {
    if rows == [] then 0 else (if rows[0].isRead then 0 else 1) + CountUnread(rows[1..])
  }

  /** Unread rows never carry an expiry: only the read transitions set `expires_at`. */
  ghost predicate UnreadNeverExpire(rows: seq<Notification>) {
    forall i :: 0 <= i < |rows| && !rows[i].isRead ==> rows[i].expiresAt.None?
  }

  // ------------------------------------------------------------ ORDER BY is_read ASC, created_at DESC

  /** `a` sorts strictly before `b`. */
  predicate Precedes(a: Notification, b: Notification) {
    (!a.isRead && b.isRead) || (a.isRead == b.isRead && a.createdAt > b.createdAt)
  }

  ghost predicate Ordered(s: seq<Notification>) {
    forall i, j :: 0 <= i < j < |s| ==> !Precedes(s[j], s[i])
  }

  function Insert(x: Notification, s: seq<Notification>): (r: seq<Notification>)
    ensures multiset(r) == multiset(s) + multiset{x}
  {
    if s == [] then [x]
    else if Precedes(s[0], x) then
      assert s == [s[0]] + s[1..];
      [s[0]] + Insert(x, s[1..])
    else [x] + s
  }

  lemma {:induction false} InsertOrdered(x: Notification, s: seq<Notification>)
    requires Ordered(s)
    ensures Ordered(Insert(x, s))
  {
    if s != [] {
      var r := Insert(x, s);
      if Precedes(s[0], x) {
        var u := s[1..];
        assert Ordered(u) by {
          forall i, j | 0 <= i < j < |u| ensures !Precedes(u[j], u[i]) {
            assert u[i] == s[i + 1] && u[j] == s[j + 1];
          }
        }
        InsertOrdered(x, u);
        var t := Insert(x, u);
        assert r == [s[0]] + t;
        forall i, j | 0 <= i < j < |r| ensures !Precedes(r[j], r[i]) {
          if i == 0 {
            assert r[j] == t[j - 1];
            assert t[j - 1] in multiset(u) + multiset{x};
            if t[j - 1] != x {
              assert t[j - 1] in u;
              var k :| 0 <= k < |u| && u[k] == t[j - 1];
              assert u[k] == s[k + 1];
            }
          } else {
            assert r[i] == t[i - 1] && r[j] == t[j - 1];
          }
        }
      } else {
        assert r == [x] + s;
        forall i, j | 0 <= i < j < |r| ensures !Precedes(r[j], r[i]) {
          if i == 0 {
            assert r[j] == s[j - 1];
            if j > 1 {
              assert !Precedes(s[j - 1], s[0]);
            }
          } else {
            assert r[i] == s[i - 1] && r[j] == s[j - 1];
          }
        }
      }
    }
  }

  /** One ordering the SQL sort may produce (SQLite leaves the order of ties open). */
  function SortRows(s: seq<Notification>): (r: seq<Notification>)
    ensures multiset(r) == multiset(s)
    ensures Ordered(r)
  {
    if s == [] then []
    else
      assert s == [s[0]] + s[1..];
      InsertOrdered(s[0], SortRows(s[1..]));
      Insert(s[0], SortRows(s[1..]))
  }

  lemma SortedRowsFrom(s: seq<Notification>)
    ensures |SortRows(s)| == |s|
    ensures forall i :: 0 <= i < |SortRows(s)| ==> SortRows(s)[i] in s
  {
    var r := SortRows(s);
    assert |multiset(r)| == |multiset(s)|;
    forall i | 0 <= i < |r| ensures r[i] in s {
      assert r[i] in multiset(r);
    }
  }

  /** What `getNotifications` answers when its SELECT succeeds. */
  function Listing(rows: seq<Notification>, now: int): (r: seq<Notification>)
    ensures Ordered(r)
    ensures |r| == Min(PageSize, |VisibleRows(rows, now)|)
    ensures forall i :: 0 <= i < |r| ==> r[i] in rows && Visible(r[i], now)
  {
    PurgeAndFilterAgree(rows, now);
    SortedRowsFrom(VisibleRows(rows, now));
    Take(SortRows(VisibleRows(Purge(rows, now), now)), PageSize)
  }

  /** No visible row is listed more often than it is stored. */
  lemma ListingWithinVisible(rows: seq<Notification>, now: int)
    ensures multiset(Listing(rows, now)) <= multiset(VisibleRows(rows, now))
  {
    PurgeAndFilterAgree(rows, now);
    TakeWithin(SortRows(VisibleRows(rows, now)), PageSize);
  }

  // ------------------------------------------------------------ read transitions

  /** The SET clause of both read endpoints. */
  function Stamp(n: Notification, now: int): (r: Notification)
    ensures r.isRead && r.expiresAt == Some(now + ReadRetention)
    ensures r.(isRead := n.isRead, expiresAt := n.expiresAt) == n
  {
    n.(isRead := true, expiresAt := Some(now + ReadRetention))
  }

  /** `UPDATE ... SET is_read = 1, expires_at = now + 2h WHERE is_read = 0`. */
  function MarkAll(rows: seq<Notification>, now: int): (r: seq<Notification>)
    ensures |r| == |rows|
    ensures forall i :: 0 <= i < |rows| ==> r[i] == if rows[i].isRead then rows[i] else Stamp(rows[i], now)
  {
    if rows == [] then []
    else [if rows[0].isRead then rows[0] else Stamp(rows[0], now)] + MarkAll(rows[1..], now)
  }

  /** `UPDATE ... SET is_read = 1, expires_at = now + 2h WHERE notification_id = ?`. */
  function MarkOne(rows: seq<Notification>, id: int, now: int): (r: seq<Notification>)
    ensures |r| == |rows|
    ensures forall i :: 0 <= i < |rows| ==> r[i] == if rows[i].id == id then Stamp(rows[i], now) else rows[i]
  {
    if rows == [] then []
    else [if rows[0].id == id then Stamp(rows[0], now) else rows[0]] + MarkOne(rows[1..], id, now)
  }

  /** `relatedItemId || null`: a falsy id (missing or 0) is stored as NULL. */
  function StoredRelatedId(relatedId: Option<int>): (r: Option<int>)
    ensures r.Some? ==> r == relatedId && r.value != 0
    ensures relatedId.Some? && relatedId.value != 0 ==> r == relatedId
    ensures r.None? ==> relatedId.None? || relatedId.value == 0
  {
    if relatedId.Some? && relatedId.value != 0 then relatedId else None
  }

  /** The row `createNotification` inserts. */
  function NewRow(id: int, kind: string, message: string, relatedId: Option<int>,
                  relatedType: Option<string>, now: int): (r: Notification)
    ensures r.id == id && r.kind == kind && r.message == message && r.relatedType == relatedType
    ensures r.createdAt == now
    ensures !r.isRead && r.expiresAt.None?
    ensures r.relatedId.None? || r.relatedId.value != 0
  {
    Notification(id, kind, message, StoredRelatedId(relatedId), relatedType, false, None, now)
  }

  /** How the INSERT and the SELECT that fetches the row back went. */
  datatype CreateOutcome = Fetched | InsertFailed | FetchFailed

  /** The Notifications table, its AUTOINCREMENT counter and the log of `new_notification`
      broadcasts. */
  class Store {
    var rows: seq<Notification>
    var nextId: int
    var broadcasts: seq<Notification>

    /** Ids increase in insertion order and stay below the counter; unread rows have no expiry. */
    ghost predicate Valid()
      reads this
    {
      IdsIncrease(rows)
      && (forall i :: 0 <= i < |rows| ==> rows[i].id < nextId)
      && UnreadNeverExpire(rows)
    }

    /** The table as the server starts: its startup code deletes every notification. */
    constructor ()
      ensures Valid()
      ensures rows == [] && broadcasts == [] && nextId == 1
    {
      rows := [];
      nextId := 1;
      broadcasts := [];
    }

    /** createNotification: insert one unread row without expiry, fetch it back and broadcast
        it when the socket server exists; a failed insert or fetch broadcasts nothing. */
    method Create(kind: string, message: string, relatedId: Option<int>, relatedType: Option<string>,
                  now: int, outcome: CreateOutcome, ioPresent: bool)
      requires Valid()
      modifies this
      ensures Valid()
      ensures outcome == InsertFailed ==> rows == old(rows) && nextId == old(nextId)
      ensures outcome != InsertFailed ==>
                rows == old(rows) + [NewRow(old(nextId), kind, message, relatedId, relatedType, now)]
                && nextId == old(nextId) + 1
      ensures broadcasts == old(broadcasts) +
                (if outcome == Fetched && ioPresent
                 then [NewRow(old(nextId), kind, message, relatedId, relatedType, now)] else [])
    {
      if outcome == InsertFailed {
        return;
      }
      var row := NewRow(nextId, kind, message, relatedId, relatedType, now);
      rows := rows + [row];
      nextId := nextId + 1;
      if outcome == Fetched && ioPresent {
        broadcasts := broadcasts + [row];
      }
    }

    /** getNotifications: purge the expired rows (a failed DELETE is only logged), then select,
        order and cap; a failed SELECT answers []. */
    method List(now: int, purgeFails: bool, selectFails: bool) returns (result: seq<Notification>)
      requires Valid()
      modifies this
      ensures Valid()
      ensures rows == if purgeFails then old(rows) else Purge(old(rows), now)
      ensures nextId == old(nextId) && broadcasts == old(broadcasts)
      ensures result == if selectFails then [] else Listing(old(rows), now)
    {
      if !purgeFails {
        rows := Purge(rows, now);
        PurgeKeepsValid(old(rows), now, nextId);
      }
      if selectFails {
        result := [];
      } else {
        result := Listing(rows, now);
        if !purgeFails {
          ListingIgnoresPurge(old(rows), now);
        }
      }
    }

    /** GET /notifications/unread-count; a failed query answers 500 (None). */
    method UnreadCount(fails: bool) returns (count: Option<nat>)
      requires Valid()
      ensures count.Some? <==> !fails
      ensures count.Some? ==> count.value == CountUnread(rows)
      ensures count.Some? ==> forall now :: count.value == CountUnread(VisibleRows(rows, now))
    {
      if fails {
        count := None;
      } else {
        count := Some(CountUnread(rows));
        forall now: int ensures CountUnread(rows) == CountUnread(VisibleRows(rows, now)) {
          UnreadRowsAreVisible(rows, now);
        }
      }
    }

    /** PUT /notifications/mark-all-read; answers success unless the UPDATE fails. */
    method MarkAllRead(now: int, fails: bool) returns (ok: bool)
      requires Valid()
      modifies this
      ensures Valid()
      ensures ok == !fails
      ensures rows == if fails then old(rows) else MarkAll(old(rows), now)
      ensures ok ==> CountUnread(rows) == 0
      ensures nextId == old(nextId) && broadcasts == old(broadcasts)
    {
      ok := !fails;
      if ok {
        rows := MarkAll(rows, now);
        MarkAllClearsUnread(old(rows), now);
      }
    }

    /** PUT /notifications/:id/read; answers success even when no row has that id. */
    method MarkRead(id: int, now: int, fails: bool) returns (ok: bool)
      requires Valid()
      modifies this
      ensures Valid()
      ensures ok == !fails
      ensures rows == if fails then old(rows) else MarkOne(old(rows), id, now)
      ensures nextId == old(nextId) && broadcasts == old(broadcasts)
    {
      ok := !fails;
      if ok {
        rows := MarkOne(rows, id, now);
      }
    }

    /** DELETE /clear-notifications: answers the number of rows deleted. */
    method Clear(fails: bool) returns (deleted: Option<nat>)
      requires Valid()
      modifies this
      ensures Valid()
      ensures deleted.Some? <==> !fails
      ensures deleted.Some? ==> deleted.value == |old(rows)| && rows == []
      ensures fails ==> rows == old(rows)
      ensures nextId == old(nextId) && broadcasts == old(broadcasts)
    {
      if fails {
        deleted := None;
      } else {
        deleted := Some(|rows|);
        rows := [];
      }
    }
  }

  // ------------------------------------------------------------ lemmas

  lemma {:induction false} PurgeAndFilterAgree(rows: seq<Notification>, now: int)
    ensures VisibleRows(Purge(rows, now), now) == VisibleRows(rows, now)
  {
    if rows != [] {
      var x, t := rows[0], rows[1..];
      PurgeAndFilterAgree(t, now);
      assert VisibleRows(rows, now) == (if Visible(x, now) then [x] else []) + VisibleRows(t, now);
      if Expired(x, now) {
        assert Purge(rows, now) == Purge(t, now);
      } else {
        assert Purge(rows, now) == [x] + Purge(t, now);
        VisibleRowsCons(x, Purge(t, now), now);
      }
    }
  }

  lemma VisibleRowsCons(x: Notification, q: seq<Notification>, now: int)
    ensures VisibleRows([x] + q, now) == (if Visible(x, now) then [x] else []) + VisibleRows(q, now)
  {
    assert ([x] + q)[0] == x && ([x] + q)[1..] == q;
  }

  lemma ListingIgnoresPurge(rows: seq<Notification>, now: int)
    ensures Listing(Purge(rows, now), now) == Listing(rows, now)
  {
    PurgePurge(rows, now);
  }

  lemma {:induction false} PurgePurge(rows: seq<Notification>, now: int)
    ensures Purge(Purge(rows, now), now) == Purge(rows, now)
  {
    if rows != [] {
      PurgePurge(rows[1..], now);
      var p := Purge(rows, now);
      var q := Purge(rows[1..], now);
      if Expired(rows[0], now) {
        assert p == q;
      } else {
        assert p == [rows[0]] + q;
        assert p[0] == rows[0] && p[1..] == q;
        assert Purge(p, now) == [rows[0]] + Purge(q, now);
      }
    }
  }

  /** Ids strictly increase along the table. */
  ghost predicate IdsIncrease(rows: seq<Notification>) {
    forall i, j :: 0 <= i < j < |rows| ==> rows[i].id < rows[j].id
  }

  lemma {:induction false} PurgeIdsAbove(rows: seq<Notification>, now: int, bound: int)
    requires forall k :: 0 <= k < |rows| ==> rows[k].id > bound
    ensures forall k :: 0 <= k < |Purge(rows, now)| ==> Purge(rows, now)[k].id > bound
  {
    if rows != [] {
      PurgeIdsAbove(rows[1..], now, bound);
    }
  }

  lemma {:induction false} PurgeKeepsIdsIncreasing(rows: seq<Notification>, now: int)
    requires IdsIncrease(rows)
    ensures IdsIncrease(Purge(rows, now))
  {
    if rows != [] {
      var t := rows[1..];
      IdsIncreaseTail(rows);
      PurgeKeepsIdsIncreasing(t, now);
      if !Expired(rows[0], now) {
        PurgeIdsAbove(t, now, rows[0].id);
        IdsIncreaseCons(rows[0], Purge(t, now));
      }
    }
  }

  /** A row with a smaller id than all of an increasing sequence may head it. */
  lemma IdsIncreaseCons(x: Notification, q: seq<Notification>)
    requires IdsIncrease(q)
    requires forall k :: 0 <= k < |q| ==> q[k].id > x.id
    ensures IdsIncrease([x] + q)
  {
    var p := [x] + q;
    forall i, j | 0 <= i < j < |p| ensures p[i].id < p[j].id {
      assert p[j] == q[j - 1];
      if i > 0 {
        assert p[i] == q[i - 1];
      }
    }
  }

  lemma PurgeKeepsValid(rows: seq<Notification>, now: int, nextId: int)
    requires IdsIncrease(rows)
    requires forall i :: 0 <= i < |rows| ==> rows[i].id < nextId
    requires UnreadNeverExpire(rows)
    ensures IdsIncrease(Purge(rows, now))
    ensures forall i :: 0 <= i < |Purge(rows, now)| ==> Purge(rows, now)[i].id < nextId
    ensures UnreadNeverExpire(Purge(rows, now))
  {
    var p := Purge(rows, now);
    forall i | 0 <= i < |p| ensures p[i].id < nextId && (!p[i].isRead ==> p[i].expiresAt.None?) {
      assert p[i] in rows;
    }
    PurgeKeepsIdsIncreasing(rows, now);
  }

  /** Under the invariant every unread row is listed-eligible, so the unread count (which
      ignores expiry) agrees with the unread rows the listing's WHERE clause selects. */
  lemma {:induction false} UnreadRowsAreVisible(rows: seq<Notification>, now: int)
    requires UnreadNeverExpire(rows)
    ensures CountUnread(VisibleRows(rows, now)) == CountUnread(rows)
  {
    if rows != [] {
      assert UnreadNeverExpire(rows[1..]) by {
        forall i | 0 <= i < |rows[1..]| && !rows[1..][i].isRead ensures rows[1..][i].expiresAt.None? {
          assert rows[1..][i] == rows[i + 1];
        }
      }
      UnreadRowsAreVisible(rows[1..], now);
      var v := VisibleRows(rows, now);
      if Visible(rows[0], now) {
        assert v == [rows[0]] + VisibleRows(rows[1..], now);
        assert v[1..] == VisibleRows(rows[1..], now);
      } else {
        assert rows[0].isRead;
        assert v == VisibleRows(rows[1..], now);
      }
    }
  }

  lemma {:induction false} InsertCountsUnread(x: Notification, s: seq<Notification>)
    ensures CountUnread(Insert(x, s)) == CountUnread(s) + (if x.isRead then 0 else 1)
  {
    if s != [] && Precedes(s[0], x) {
      InsertCountsUnread(x, s[1..]);
      assert Insert(x, s)[1..] == Insert(x, s[1..]);
    } else if s != [] {
      assert Insert(x, s)[1..] == s;
    }
  }

  lemma {:induction false} SortCountsUnread(s: seq<Notification>)
    ensures CountUnread(SortRows(s)) == CountUnread(s)
  {
    if s != [] {
      SortCountsUnread(s[1..]);
      InsertCountsUnread(s[0], SortRows(s[1..]));
    }
  }

  /** Nothing is counted unread exactly when every row is read. */
  lemma {:induction false} CountUnreadZero(s: seq<Notification>)
    ensures CountUnread(s) == 0 <==> forall i :: 0 <= i < |s| ==> s[i].isRead
  {
    if s != [] {
      CountUnreadZero(s[1..]);
      assert forall i :: 1 <= i < |s| ==> s[i] == s[1..][i - 1];
    }
  }

  lemma {:induction false} AllReadCountsZero(s: seq<Notification>)
    requires forall i :: 0 <= i < |s| ==> s[i].isRead
    ensures CountUnread(s) == 0
  {
    if s != [] { AllReadCountsZero(s[1..]); }
  }

  /** In an ordered sequence the unread rows come first, so the first k rows hold
      min(k, unread) unread ones. */
  lemma {:induction false} OrderedPrefixUnread(s: seq<Notification>, k: nat)
    requires Ordered(s)
    ensures CountUnread(Take(s, k)) == Min(k, CountUnread(s))
  {
    if s != [] && k > 0 {
      var t := s[1..];
      assert Ordered(t) by {
        forall i, j | 0 <= i < j < |t| ensures !Precedes(t[j], t[i]) {
          assert t[i] == s[i + 1] && t[j] == s[j + 1];
        }
      }
      OrderedPrefixUnread(t, k - 1);
      assert Take(s, k)[1..] == Take(t, k - 1);
      if s[0].isRead {
        assert forall i :: 0 <= i < |t| ==> t[i].isRead by {
          forall i | 0 <= i < |t| ensures t[i].isRead {
            assert t[i] == s[i + 1];
            assert !Precedes(s[i + 1], s[0]);
          }
        }
        AllReadCountsZero(t);
      }
    }
  }

  /** Unread count consistency: the listing shows min(50, unread) unread notifications, i.e.
      every unread notification while there are at most 50 of them. */
  lemma ListingShowsUnread(rows: seq<Notification>, now: int)
    requires UnreadNeverExpire(rows)
    ensures CountUnread(Listing(rows, now)) == Min(PageSize, CountUnread(rows))
  {
    var v := VisibleRows(Purge(rows, now), now);
    PurgeAndFilterAgree(rows, now);
    UnreadRowsAreVisible(rows, now);
    SortCountsUnread(v);
    OrderedPrefixUnread(SortRows(v), PageSize);
  }

  /** The listing is the best 50 visible rows: a visible row left out sorts no earlier than
      any row that was listed. */
  lemma ListingIsTopRows(rows: seq<Notification>, now: int, left: Notification, listed: Notification)
    requires left in VisibleRows(rows, now) && left !in Listing(rows, now)
    requires listed in Listing(rows, now)
    ensures !Precedes(left, listed)
  {
    var v := VisibleRows(rows, now);
    PurgeAndFilterAgree(rows, now);
    var sorted := SortRows(v);
    assert Listing(rows, now) == Take(sorted, PageSize);
    assert left in multiset(v);
    TopRowsOfOrdered(sorted, left, listed);
  }

  /** In an ordered sequence, a row beyond the first 50 sorts no earlier than any of them. */
  lemma TopRowsOfOrdered(sorted: seq<Notification>, left: Notification, listed: Notification)
    requires Ordered(sorted) && left in multiset(sorted)
    requires left !in Take(sorted, PageSize) && listed in Take(sorted, PageSize)
    ensures !Precedes(left, listed)
  {
    var r := Take(sorted, PageSize);
    var a :| 0 <= a < |sorted| && sorted[a] == left;
    var b :| 0 <= b < |r| && r[b] == listed;
    assert forall k :: 0 <= k < |r| ==> r[k] == sorted[k];
    assert sorted[b] == listed;
  }

  /** An expired row is never listed, and the purge removes it from the table. */
  lemma ExpiredNeverListed(rows: seq<Notification>, now: int, n: Notification)
    requires Expired(n, now)
    ensures n !in Listing(rows, now) && n !in Purge(rows, now)
  {
  }

  /** Boundary: a row whose expiry equals the current time is neither purged nor listed. */
  lemma ExpiryBoundary(rows: seq<Notification>, now: int, n: Notification)
    requires n in rows && n.expiresAt == Some(now)
    ensures n in Purge(rows, now) && n !in Listing(rows, now)
  {
    var i :| 0 <= i < |rows| && rows[i] == n;
  }

  lemma {:induction false} MarkAllClearsUnread(rows: seq<Notification>, now: int)
    ensures CountUnread(MarkAll(rows, now)) == 0
    ensures UnreadNeverExpire(MarkAll(rows, now))
  {
    if rows != [] {
      MarkAllClearsUnread(rows[1..], now);
      assert MarkAll(rows, now)[1..] == MarkAll(rows[1..], now);
    }
  }

  /** Marking one notification twice gives the same table as marking it once. */
  lemma MarkOneIdempotent(rows: seq<Notification>, id: int, now: int)
    ensures MarkOne(MarkOne(rows, id, now), id, now) == MarkOne(rows, id, now)
  {
  }

  /** With distinct ids, marking an unread notification lowers the unread count by one;
      marking a read or unknown one leaves it. */
  lemma {:induction false} MarkOneCountsUnread(rows: seq<Notification>, id: int, now: int)
    requires IdsIncrease(rows)
    ensures CountUnread(MarkOne(rows, id, now)) ==
      CountUnread(rows) - (if exists i :: 0 <= i < |rows| && rows[i].id == id && !rows[i].isRead then 1 else 0)
  {
    if rows != [] {
      var t := rows[1..];
      IdsIncreaseTail(rows);
      MarkOneCountsUnread(t, id, now);
      assert MarkOne(rows, id, now)[1..] == MarkOne(t, id, now);
      if rows[0].id == id {
        IdAbsentFromTail(rows);
      } else {
        UnreadIdInTail(rows, id);
      }
    }
  }

  lemma IdsIncreaseTail(rows: seq<Notification>)
    requires rows != [] && IdsIncrease(rows)
    ensures IdsIncrease(rows[1..])
  {
    var t := rows[1..];
    forall i, j | 0 <= i < j < |t| ensures t[i].id < t[j].id {
      assert t[i] == rows[i + 1] && t[j] == rows[j + 1];
    }
  }

  /** With increasing ids, the head's id does not occur again. */
  lemma IdAbsentFromTail(rows: seq<Notification>)
    requires rows != [] && IdsIncrease(rows)
    ensures forall i :: 0 <= i < |rows[1..]| ==> rows[1..][i].id != rows[0].id
  {
    var t := rows[1..];
    forall i | 0 <= i < |t| ensures t[i].id != rows[0].id {
      assert t[i] == rows[i + 1];
    }
  }

  /** A head with another id does not change whether an unread row has the id. */
  lemma UnreadIdInTail(rows: seq<Notification>, id: int)
    requires rows != [] && rows[0].id != id
    ensures (exists i :: 0 <= i < |rows| && rows[i].id == id && !rows[i].isRead)
        <==> (exists i :: 0 <= i < |rows[1..]| && rows[1..][i].id == id && !rows[1..][i].isRead)
  {
    var t := rows[1..];
    if exists i :: 0 <= i < |rows| && rows[i].id == id && !rows[i].isRead {
      var i :| 0 <= i < |rows| && rows[i].id == id && !rows[i].isRead;
      assert t[i - 1] == rows[i];
    }
    if exists i :: 0 <= i < |t| && t[i].id == id && !t[i].isRead {
      var i :| 0 <= i < |t| && t[i].id == id && !t[i].isRead;
      assert rows[i + 1] == t[i];
    }
  }

  /** The head of an ordered sequence is a row that sorts before every other one. */
  lemma OrderedHead(s: seq<Notification>, x: Notification)
    requires Ordered(s) && x in s
    requires forall k :: 0 <= k < |s| ==> s[k] == x || Precedes(x, s[k])
    ensures s[0] == x
  {
    var a :| 0 <= a < |s| && s[a] == x;
    if a > 0 {
      assert !Precedes(s[a], s[0]);
    }
  }

  /** A notification created at a time later than every stored row's creation heads the
      listing, unread and without expiry. */
  lemma NewestUnreadListedFirst(rows: seq<Notification>, n: Notification, now: int)
    requires !n.isRead && n.expiresAt.None?
    requires forall i :: 0 <= i < |rows| ==> rows[i].createdAt < n.createdAt
    ensures Listing(rows + [n], now) != [] && Listing(rows + [n], now)[0] == n
  {
    var all := rows + [n];
    var v := VisibleRows(all, now);
    NewestPrecedesVisible(rows, n, now);
    HeadOfSorted(v, n);
    PurgeAndFilterAgree(all, now);
    assert Listing(all, now) == Take(SortRows(v), PageSize);
  }

  /** The new row is visible and sorts before every other visible row. */
  lemma NewestPrecedesVisible(rows: seq<Notification>, n: Notification, now: int)
    requires !n.isRead && n.expiresAt.None?
    requires forall i :: 0 <= i < |rows| ==> rows[i].createdAt < n.createdAt
    ensures n in VisibleRows(rows + [n], now)
    ensures forall k :: 0 <= k < |VisibleRows(rows + [n], now)| ==>
              VisibleRows(rows + [n], now)[k] == n || Precedes(n, VisibleRows(rows + [n], now)[k])
  {
    var all := rows + [n];
    var v := VisibleRows(all, now);
    assert all[|rows|] == n;
    forall k | 0 <= k < |v| ensures v[k] == n || Precedes(n, v[k]) {
      assert v[k] in all;
      if v[k] != n {
        var m :| 0 <= m < |all| && all[m] == v[k];
        assert m < |rows|;
      }
    }
  }

  /** A row that precedes every other row heads the sorted rows. */
  lemma HeadOfSorted(v: seq<Notification>, n: Notification)
    requires n in v
    requires forall k :: 0 <= k < |v| ==> v[k] == n || Precedes(n, v[k])
    ensures SortRows(v) != [] && SortRows(v)[0] == n
  {
    var sorted := SortRows(v);
    assert n in multiset(sorted);
    forall k | 0 <= k < |sorted| ensures sorted[k] == n || Precedes(n, sorted[k]) {
      assert sorted[k] in multiset(v);
    }
    OrderedHead(sorted, n);
  }
}
