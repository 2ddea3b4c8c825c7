/**
  The notification store of inc/notifications.php: each user's
  `homebio_notifications` meta is a list of notifications, newest first,
  that adding, marking as read and deleting change and write back.  The
  meta table is the field `meta`; a user without an entry stands for a
  meta value that is not an array.  `uniqid` and `current_time` are
  parameters, and a date is the timestamp `strtotime` reads from it.
*/
module Notifications {
  import opened Wrappers
  import opened NotificationFormat

  /** The `property_update` data a notification carries. */
  datatype Payload = PropertyUpdate(propertyId: int, title: string, url: string, changes: seq<Change>)

  /** One stored notification: `id`, `date`, `read` and the data. */
  datatype Notification<P> = Notification(id: string, date: int, read: bool, payload: P)

  /** At most this many notifications are kept per user. */
  const MaxNotifications: nat := 50

  // ---------------------------------------------------------------------------
  // The list operations, as reference definitions

  /** `array_unshift` then `array_slice($notifications, 0, 50)`. */
  function Prepend<P>(ns: seq<Notification<P>>, n: Notification<P>): (r: seq<Notification<P>>)
    ensures |r| == if |ns| < MaxNotifications then |ns| + 1 else MaxNotifications
    ensures r[0] == n && r[1..] == ns[..|r| - 1]
  {
    var all := [n] + ns;
    if |all| <= MaxNotifications then all else all[..MaxNotifications]
  }

  /** The first notification with the id marked as read; nothing else changes. */
  function MarkFirst<P>(ns: seq<Notification<P>>, id: string): (r: seq<Notification<P>>)
    ensures |r| == |ns|
  {
    if ns == [] then []
    else if ns[0].id == id then [ns[0].(read := true)] + ns[1..]
    else [ns[0]] + MarkFirst(ns[1..], id)
  }

  /** Marking touches exactly the first match: the list with that one entry replaced. */
  lemma {:induction false} MarkFirstAt<P>(ns: seq<Notification<P>>, id: string, k: nat)
    requires k < |ns| && ns[k].id == id && forall j | 0 <= j < k :: ns[j].id != id
    ensures MarkFirst(ns, id) == ns[k := ns[k].(read := true)]
  {
    if k > 0 {
      MarkFirstAt(ns[1..], id, k - 1);
    }
  }

  /** Without a match nothing is marked. */
  lemma {:induction false} MarkFirstAbsent<P>(ns: seq<Notification<P>>, id: string)
    requires forall j | 0 <= j < |ns| :: ns[j].id != id
    ensures MarkFirst(ns, id) == ns
  {
    if ns != [] {
      MarkFirstAbsent(ns[1..], id);
    }
  }

  /** Every notification marked as read. */
  function MarkedAll<P>(ns: seq<Notification<P>>): (r: seq<Notification<P>>)
  {
    seq(|ns|, k requires 0 <= k < |ns| => ns[k].(read := true))
  }

  /** The notifications with another id, in their order (`array_filter` + `array_values`). */
  function Without<P>(ns: seq<Notification<P>>, id: string): (r: seq<Notification<P>>)
    ensures |r| <= |ns|
  {
    if ns == [] then []
    else (if ns[0].id != id then [ns[0]] else []) + Without(ns[1..], id)
  }

  /** Deleting keeps exactly the notifications with another id, and removes nothing when the id is absent. */
  lemma {:induction false} WithoutMembers<P>(ns: seq<Notification<P>>, id: string)
    ensures forall n :: n in Without(ns, id) <==> n in ns && n.id != id
    ensures (forall k | 0 <= k < |ns| :: ns[k].id != id) ==> Without(ns, id) == ns
  {
    if ns != [] {
      WithoutMembers(ns[1..], id);
      assert ns == [ns[0]] + ns[1..];
    }
  }

  /** Deleting works piece by piece, so the kept notifications keep their relative order. */
  lemma {:induction false} WithoutAppend<P>(a: seq<Notification<P>>, b: seq<Notification<P>>, id: string)
    ensures Without(a + b, id) == Without(a, id) + Without(b, id)
  {
    if a == [] {
      assert a + b == b;
    } else {
      var h := if a[0].id != id then [a[0]] else [];
      assert Without(a + b, id) == h + Without(a[1..] + b, id) by {
        assert (a + b)[1..] == a[1..] + b;
        assert (a + b)[0] == a[0];
      }
      WithoutAppend(a[1..], b, id);
      assert Without(a, id) == h + Without(a[1..], id);
    }
  }

  /** `empty($notification['read'])`: the unread ones, in their order. */
  function Unread<P>(ns: seq<Notification<P>>): (r: seq<Notification<P>>)
    ensures |r| <= |ns|
    ensures forall n | n in r :: n in ns && !n.read
    ensures forall n | n in ns && !n.read :: n in r
  {
    if ns == [] then []
    else (if !ns[0].read then [ns[0]] else []) + Unread(ns[1..])
  }

  /** The filter over one more notification in front. */
  lemma UnreadCons<P>(n: Notification<P>, s: seq<Notification<P>>)
    ensures multiset(Unread([n] + s)) == UnreadPart(n) + multiset(Unread(s))
  {
    assert ([n] + s)[0] == n && ([n] + s)[1..] == s;
  }

  /** After marking all as read nothing is unread, and a single mark lowers the count by at most one. */
  lemma MarkedAllNoneUnread<P>(ns: seq<Notification<P>>, id: string)
    ensures Unread(MarkedAll(ns)) == []
    ensures |Unread(ns)| - 1 <= |Unread(MarkFirst(ns, id))| <= |Unread(ns)|
  {
    AllReadNoneUnread(MarkedAll(ns));
    UnreadMarkFirst(ns, id);
  }

  lemma {:induction false} AllReadNoneUnread<P>(ns: seq<Notification<P>>)
    requires forall k | 0 <= k < |ns| :: ns[k].read
    ensures Unread(ns) == []
  {
    if ns != [] {
      AllReadNoneUnread(ns[1..]);
    }
  }

  lemma {:induction false} UnreadMarkFirst<P>(ns: seq<Notification<P>>, id: string)
    ensures |Unread(ns)| - 1 <= |Unread(MarkFirst(ns, id))| <= |Unread(ns)|
  {
    if ns != [] {
      if ns[0].id == id {
        assert MarkFirst(ns, id)[1..] == ns[1..];
      } else {
        UnreadMarkFirst(ns[1..], id);
        assert MarkFirst(ns, id)[1..] == MarkFirst(ns[1..], id);
      }
    }
  }

  // ---------------------------------------------------------------------------
  // The listing: usort by date, newest first

  predicate SortedNewestFirst<P>(ns: seq<Notification<P>>)
  {
    forall i, j | 0 <= i < j < |ns| :: ns[i].date >= ns[j].date
  }

  /** Places `n` before the first notification that is not newer, so equal dates keep their order. */
  function Insert<P>(n: Notification<P>, s: seq<Notification<P>>): (r: seq<Notification<P>>)
    ensures multiset(r) == multiset(s) + multiset{n}
    ensures |r| == |s| + 1
  {
    if s == [] then [n]
    else if s[0].date <= n.date then [n] + s
    else
      assert s == [s[0]] + s[1..];
      [s[0]] + Insert(n, s[1..])
  }

  lemma {:induction false} InsertSorted<P>(n: Notification<P>, s: seq<Notification<P>>)
    requires SortedNewestFirst(s)
    ensures SortedNewestFirst(Insert(n, s))
  {
    if s == [] || s[0].date <= n.date {
      if s != [] {
        forall y | y in s ensures y.date <= n.date {
          var j :| 0 <= j < |s| && s[j] == y;
        }
      }
      ConsSorted(n, s);
    } else {
      assert SortedNewestFirst(s[1..]);
      InsertSorted(n, s[1..]);
      var rest := Insert(n, s[1..]);
      forall y | y in rest ensures y.date <= s[0].date {
        assert y in multiset(rest);
        if y != n {
          assert y in multiset(s[1..]);
          var j :| 0 <= j < |s[1..]| && s[1..][j] == y;
          assert s[j + 1] == y;
        }
      }
      ConsSorted(s[0], rest);
    }
  }

  /** The order `homebio_get_user_notifications` returns (a stable sort, as `usort` is). */
  function SortByDate<P>(ns: seq<Notification<P>>): (r: seq<Notification<P>>)
    ensures multiset(r) == multiset(ns)
    ensures |r| == |ns|
  {
    if ns == [] then []
    else
      assert ns == [ns[0]] + ns[1..];
      Insert(ns[0], SortByDate(ns[1..]))
  }

  /** The listing is newest first. */
  lemma {:induction false} SortByDateSorted<P>(ns: seq<Notification<P>>)
    ensures SortedNewestFirst(SortByDate(ns))
  {
    if ns != [] {
      SortByDateSorted(ns[1..]);
      InsertSorted(ns[0], SortByDate(ns[1..]));
    }
  }

  lemma {:induction false} UnreadInsert<P>(n: Notification<P>, s: seq<Notification<P>>)
    ensures |Unread(Insert(n, s))| == |Unread(s)| + (if n.read then 0 else 1)
  {
    if s != [] && s[0].date > n.date {
      UnreadInsert(n, s[1..]);
      assert Insert(n, s)[1..] == Insert(n, s[1..]);
    } else if s != [] {
      assert Insert(n, s)[1..] == s;
    }
  }

  /** Sorting does not change how many are unread. */
  lemma {:induction false} UnreadSortByDate<P>(ns: seq<Notification<P>>)
    ensures |Unread(SortByDate(ns))| == |Unread(ns)|
  {
    if ns != [] {
      UnreadSortByDate(ns[1..]);
      UnreadInsert(ns[0], SortByDate(ns[1..]));
    }
  }

  /** Inserting a notification adds it to the unread ones exactly when it is unread. */
  lemma {:induction false} UnreadInsertMultiset<P>(n: Notification<P>, s: seq<Notification<P>>)
    ensures multiset(Unread(Insert(n, s))) == UnreadPart(n) + multiset(Unread(s))
  {
    if s == [] {
      UnreadCons(n, []);
    } else if s[0].date > n.date {
      UnreadInsertMultiset(n, s[1..]);
      InsertAfterHead(n, s);
      UnreadCons(s[0], Insert(n, s[1..]));
      UnreadHead(s);
    } else {
      assert Insert(n, s) == [n] + s;
      UnreadCons(n, s);
    }
  }

  /** Every unread notification is kept as many times as it is stored, and no read one at all. */
  lemma {:induction false} UnreadMultiplicity<P>(ns: seq<Notification<P>>, n: Notification<P>)
    ensures multiset(Unread(ns))[n] == if n.read then 0 else multiset(ns)[n]
  {
    if ns != [] {
      UnreadMultiplicity(ns[1..], n);
      UnreadCountHead(ns, n);
      SeqCountHead(ns, n);
      PartCount(ns[0], n);
    }
  }

  lemma UnreadCountHead<P>(ns: seq<Notification<P>>, n: Notification<P>)
    requires ns != []
    ensures multiset(Unread(ns))[n] == UnreadPart(ns[0])[n] + multiset(Unread(ns[1..]))[n]
  {
    UnreadHead(ns);
  }

  lemma SeqCountHead<P>(ns: seq<Notification<P>>, n: Notification<P>)
    requires ns != []
    ensures multiset(ns)[n] == multiset{ns[0]}[n] + multiset(ns[1..])[n]
  {
    assert ns == [ns[0]] + ns[1..];
  }

  lemma PartCount<P>(m: Notification<P>, n: Notification<P>)
    ensures UnreadPart(m)[n] == if n.read then 0 else multiset{m}[n]
  {
  }

  /** The notification itself when it is unread, nothing otherwise. */
  ghost function UnreadPart<P>(n: Notification<P>): multiset<Notification<P>>
  {
    if n.read then multiset{} else multiset{n}
  }

  lemma InsertAfterHead<P>(n: Notification<P>, s: seq<Notification<P>>)
    requires s != [] && s[0].date > n.date
    ensures Insert(n, s) == [s[0]] + Insert(n, s[1..])
  {
  }

  lemma UnreadHead<P>(s: seq<Notification<P>>)
    requires s != []
    ensures multiset(Unread(s)) == UnreadPart(s[0]) + multiset(Unread(s[1..]))
  {
    assert s == [s[0]] + s[1..];
    UnreadCons(s[0], s[1..]);
  }

  /** Sorting keeps exactly the same unread notifications. */
  lemma {:induction false} UnreadSortByDateMultiset<P>(ns: seq<Notification<P>>)
    ensures multiset(Unread(SortByDate(ns))) == multiset(Unread(ns))
  {
    if ns != [] {
      UnreadSortByDateMultiset(ns[1..]);
      UnreadInsertMultiset(ns[0], SortByDate(ns[1..]));
      UnreadHead(ns);
    }
  }

  /** Filtering a list newest first keeps it newest first. */
  lemma {:induction false} UnreadSorted<P>(ns: seq<Notification<P>>)
    requires SortedNewestFirst(ns)
    ensures SortedNewestFirst(Unread(ns))
  {
    if ns != [] {
      assert SortedNewestFirst(ns[1..]);
      UnreadSorted(ns[1..]);
      if !ns[0].read {
        HeadNewest(ns);
        ConsSorted(ns[0], Unread(ns[1..]));
      }
    }
  }

  lemma HeadNewest<P>(ns: seq<Notification<P>>)
    requires ns != [] && SortedNewestFirst(ns)
    ensures forall y | y in Unread(ns[1..]) :: y.date <= ns[0].date
  {
    forall y | y in Unread(ns[1..]) ensures y.date <= ns[0].date {
      assert y in ns[1..];
    }
  }

  /** A list stays newest first when something no older goes in front. */
  lemma ConsSorted<P>(x: Notification<P>, rest: seq<Notification<P>>)
    requires SortedNewestFirst(rest)
    requires forall y | y in rest :: y.date <= x.date
    ensures SortedNewestFirst([x] + rest)
  {
    var r := [x] + rest;
    forall i, j | 0 <= i < j < |r| ensures r[i].date >= r[j].date {
      assert r[j] == rest[j - 1];
      if i > 0 {
        assert r[i] == rest[i - 1];
      }
    }
  }

  // ---------------------------------------------------------------------------
  // Delivery to several users: the `foreach` of `homebio_compare_and_notify`

  /** The meta of a user as `get_user_meta` + `is_array` reads it for adding. */
  function StoredOf(meta: map<nat, seq<Notification<Payload>>>, user: nat): seq<Notification<Payload>>
  {
    if user in meta then meta[user] else []
  }

  /** The meta after notifying the users in order, the k-th under the k-th id. */
  function Delivered(meta: map<nat, seq<Notification<Payload>>>, users: seq<nat>, ids: seq<string>, now: int, payload: Payload): map<nat, seq<Notification<Payload>>>
    requires |ids| == |users|
  {
    if users == [] then meta
    else
      var m := Delivered(meta, users[..|users| - 1], ids[..|users| - 1], now, payload);
      var u := users[|users| - 1];
      m[u := Prepend(StoredOf(m, u), Notification(ids[|users| - 1], now, false, payload))]
  }

  /** Every notified user's newest notification is the new, unread one; nobody else is touched. */
  lemma {:induction false} DeliveredSpec(meta: map<nat, seq<Notification<Payload>>>, users: seq<nat>, ids: seq<string>, now: int, payload: Payload)
    requires |ids| == |users|
    ensures var m := Delivered(meta, users, ids, now, payload);
      (forall u | u in users :: u in m && m[u] != [] && m[u][0].payload == payload && !m[u][0].read && m[u][0].date == now)
      && (forall u | u !in users :: (u in m <==> u in meta) && (u in meta ==> m[u] == meta[u]))
    decreases |users|
  {
    if users != [] {
      var front := users[..|users| - 1];
      DeliveredSpec(meta, front, ids[..|users| - 1], now, payload);
      assert users == front + [users[|users| - 1]];
    }
  }

  // ---------------------------------------------------------------------------
  // The store

  /** The `homebio_notifications` meta of every user. */
  class NotificationStore {
    var meta: map<nat, seq<Notification<Payload>>>

    constructor (meta: map<nat, seq<Notification<Payload>>>)
      ensures this.meta == meta
    {
      this.meta := meta;
    }

    /** `homebio_get_user_notifications($user_id, $unread_only)`. */
    function Listing(user: nat, unreadOnly: bool): (r: seq<Notification<Payload>>)
      reads this
      ensures user !in meta ==> r == []
      ensures SortedNewestFirst(r)
      ensures user in meta && !unreadOnly ==> multiset(r) == multiset(meta[user])
      ensures user in meta && unreadOnly ==> forall n :: n in r <==> n in meta[user] && !n.read
      ensures user in meta && unreadOnly ==> multiset(r) == multiset(Unread(meta[user]))
    {
      if user !in meta then []
      else
        var sorted := SortByDate(meta[user]);
        SortByDateSorted(meta[user]);
        if unreadOnly then
          UnreadSorted(sorted);
          UnreadSortByDateMultiset(meta[user]);
          assert forall n :: n in sorted <==> n in multiset(meta[user]);
          Unread(sorted)
        else sorted
    }

    /** `homebio_get_unread_notifications_count`: the unread ones, whatever their order. */
    function UnreadCount(user: nat): (n: nat)
      reads this
      ensures n == if user in meta then |Unread(meta[user])| else 0
    {
      if user in meta then UnreadSortByDate(meta[user]); |Listing(user, true)| else 0
    }

    /** `homebio_add_notification`: the new unread notification goes first, at most 50 are kept. */
    method Add(user: nat, payload: Payload, id: string, now: int)
      modifies this
      ensures meta == old(meta)[user := Prepend(StoredOf(old(meta), user), Notification(id, now, false, payload))]
      ensures |meta[user]| <= MaxNotifications && meta[user][0] == Notification(id, now, false, payload)
    {
      var notifications := StoredOf(meta, user);
      notifications := [Notification(id, now, false, payload)] + notifications;
      if |notifications| > MaxNotifications {
        notifications := notifications[..MaxNotifications];
      }
      meta := meta[user := notifications];
    }

    /**
      `homebio_mark_notification_read`: `false` when nothing is stored;
      otherwise the first notification with the id is marked and the list
      written back.
    */
    method MarkRead(user: nat, id: string) returns (ok: bool)
      modifies this
      ensures ok <==> user in old(meta)
      ensures ok ==> meta == old(meta)[user := MarkFirst(old(meta)[user], id)]
      ensures !ok ==> meta == old(meta)
    {
      if user !in meta {
        return false;
      }
      var notifications := meta[user];
      var i := 0;
      while i < |notifications|
        invariant i <= |notifications| && notifications == meta[user]
        invariant forall j | 0 <= j < i :: notifications[j].id != id
      {
        if notifications[i].id == id {
          MarkFirstAt(notifications, id, i);
          notifications := notifications[i := notifications[i].(read := true)];
          break;
        }
        i := i + 1;
      }
      if i == |notifications| {
        MarkFirstAbsent(notifications, id);
      }
      meta := meta[user := notifications];
      return true;
    }

    /** `homebio_mark_all_notifications_read`: `false` when nothing is stored, else every notification marked. */
    method MarkAllRead(user: nat) returns (ok: bool)
      modifies this
      ensures ok <==> user in old(meta)
      ensures ok ==> meta == old(meta)[user := MarkedAll(old(meta)[user])] && UnreadCount(user) == 0
      ensures !ok ==> meta == old(meta)
    {
      if user !in meta {
        return false;
      }
      var notifications := meta[user];
      for i := 0 to |notifications|
        invariant |notifications| == |meta[user]|
        invariant forall j | 0 <= j < i :: notifications[j] == meta[user][j].(read := true)
        invariant forall j | i <= j < |notifications| :: notifications[j] == meta[user][j]
      {
        notifications := notifications[i := notifications[i].(read := true)];
      }
      assert notifications == MarkedAll(meta[user]);
      MarkedAllNoneUnread(meta[user], id := "");
      meta := meta[user := notifications];
      return true;
    }

    /** `homebio_delete_notification`: `false` when nothing is stored, else every notification with the id removed. */
    method Delete(user: nat, id: string) returns (ok: bool)
      modifies this
      ensures ok <==> user in old(meta)
      ensures ok ==> meta == old(meta)[user := Without(old(meta)[user], id)]
      ensures !ok ==> meta == old(meta)
    {
      if user !in meta {
        return false;
      }
      var notifications := meta[user];
      var kept := [];
      for i := 0 to |notifications|
        invariant kept == Without(notifications[..i], id) && meta == old(meta)
      {
        assert notifications[..i + 1] == notifications[..i] + [notifications[i]];
        WithoutAppend(notifications[..i], [notifications[i]], id);
        assert Without([notifications[i]], id) == if notifications[i].id != id then [notifications[i]] else [] by {
          assert [notifications[i]][1..] == [];
        }
        if notifications[i].id != id {
          kept := kept + [notifications[i]];
        }
      }
      assert notifications[..|notifications|] == notifications;
      meta := meta[user := kept];
      return true;
    }

    /** `homebio_delete_all_notifications`: the meta entry is removed. */
    method DeleteAll(user: nat)
      modifies this
      ensures meta == old(meta) - {user}
      ensures Listing(user, false) == [] && UnreadCount(user) == 0
    {
      meta := meta - {user};
    }

    /**
      `homebio_compare_and_notify`: when a snapshot was captured and a
      compared field changed, each user holding the property as a favorite
      gets an unread `property_update` notification listing the changes.
      `users` is what `homebio_get_users_with_favorite` returns and `ids`
      the `uniqid` drawn for each of them.
    */
    method CompareAndNotify(propertyId: int, title: string, url: string,
                            original: Option<Snapshot>, current: Snapshot,
                            users: seq<nat>, ids: seq<string>, now: int)
      requires |ids| == |users|
      modifies this
      ensures var changes := if original.Some? then ChangesUpTo(5, original.value, current) else [];
        if changes == [] then meta == old(meta)
        else meta == Delivered(old(meta), users, ids, now, PropertyUpdate(propertyId, title, url, changes))
    {
      var changes := DetectChanges(original, current);
      if changes == [] {
        return;
      }
      if users == [] {
        return;
      }
      var payload := PropertyUpdate(propertyId, title, url, changes);
      for k := 0 to |users|
        invariant meta == Delivered(old(meta), users[..k], ids[..k], now, payload)
      {
        assert users[..k + 1][..k] == users[..k] && ids[..k + 1][..k] == ids[..k];
        Add(users[k], payload, ids[k], now);
      }
      assert users[..|users|] == users && ids[..|ids|] == ids;
    }
  }
}
