/**
 * The frontend notification store (frontend/vue-project/src/stores/notification.js):
 * a list of `{ id, type, message }` entries, stamped from a counter that only
 * grows, so the ids in the list are increasing. The auto-remove timer is not
 * run: `PushNotification` returns its delay, and firing it is a call of
 * `RemoveNotification` with the returned id.
 */
module Notifications {
  import opened Util

  /** One entry; `kind` is the source's `type`. */
  datatype Notification = Notification(id: int, kind: string, message: string)

  const DefaultKind := "info"
  const DefaultMessage := ""
  const DefaultTimeout := 5000

  /** Ids strictly increase along the list (so they are unique). */
  predicate Ascending(ns: seq<Notification>) {
    forall i, j :: 0 <= i < j < |ns| ==> ns[i].id < ns[j].id
  }

  /** The list without the entries whose id is `id`, the others in order. */
  function Without(ns: seq<Notification>, id: int): seq<Notification> {
    if ns == [] then []
    else if ns[0].id == id then Without(ns[1..], id)
    else [ns[0]] + Without(ns[1..], id)
  }

  /** `Without` keeps exactly the entries with another id. */
  lemma {:induction false} WithoutMembers(ns: seq<Notification>, id: int)
    ensures forall n :: n in Without(ns, id) <==> n in ns && n.id != id
    decreases |ns|
  {
    if ns != [] {
      WithoutMembers(ns[1..], id);
      assert ns == [ns[0]] + ns[1..];
    }
  }

  /** When no entry has the id, `Without` changes nothing. */
  lemma {:induction false} WithoutAbsent(ns: seq<Notification>, id: int)
    requires forall k :: 0 <= k < |ns| ==> ns[k].id != id
    ensures Without(ns, id) == ns
    decreases |ns|
  {
    if ns != [] {
      assert forall k :: 0 <= k < |ns[1..]| ==> ns[1..][k] == ns[k + 1];
      WithoutAbsent(ns[1..], id);
      assert ns == [ns[0]] + ns[1..];
    }
  }

  /** The tail of an ascending list is ascending, and above its head. */
  lemma AscendingTail(ns: seq<Notification>)
    requires Ascending(ns) && ns != []
    ensures Ascending(ns[1..])
    ensures forall n :: n in ns[1..] ==> ns[0].id < n.id
  {
    var tail := ns[1..];
    forall a, b | 0 <= a < b < |tail| ensures tail[a].id < tail[b].id {
      assert tail[a] == ns[a + 1] && tail[b] == ns[b + 1];
    }
    forall n | n in tail ensures ns[0].id < n.id {
      var k :| 0 <= k < |tail| && tail[k] == n;
      assert tail[k] == ns[k + 1];
    }
  }

  /** A list ascending after its head, whose elements are above it, is ascending. */
  lemma AscendingCons(n: Notification, rest: seq<Notification>)
    requires Ascending(rest) && forall m :: m in rest ==> n.id < m.id
    ensures Ascending([n] + rest)
  {
    var r := [n] + rest;
    forall i, j | 0 <= i < j < |r| ensures r[i].id < r[j].id {
      assert r[j] == rest[j - 1];
      if i == 0 {
        assert r[j] in rest;
      } else {
        assert r[i] == rest[i - 1];
      }
    }
  }

  /** Dropping an id keeps a list ascending. */
  lemma {:induction false} WithoutAscending(ns: seq<Notification>, id: int)
    requires Ascending(ns)
    ensures Ascending(Without(ns, id))
    decreases |ns|
  {
    if ns != [] {
      AscendingTail(ns);
      WithoutAscending(ns[1..], id);
      if ns[0].id != id {
        WithoutMembers(ns[1..], id);
        AscendingCons(ns[0], Without(ns[1..], id));
      }
    }
  }

  /**
   * In an ascending list, splicing out the entry at `i` is the same as
   * dropping its id: `findIndex` then `splice` removes exactly that entry.
   */
  lemma {:induction false} RemoveAtIsWithout(ns: seq<Notification>, i: nat)
    requires Ascending(ns) && i < |ns|
    ensures RemoveAt(ns, i) == Without(ns, ns[i].id)
    decreases |ns|
  {
    var id := ns[i].id;
    var tail := ns[1..];
    AscendingTail(ns);
    if i == 0 {
      forall k | 0 <= k < |tail| ensures tail[k].id != id {
        assert tail[k] in tail;
      }
      WithoutAbsent(tail, id);
      assert RemoveAt(ns, 0) == tail;
    } else {
      assert tail[i - 1] == ns[i];
      RemoveAtIsWithout(tail, i - 1);
      assert RemoveAt(ns, i) == [ns[0]] + RemoveAt(tail, i - 1);
    }
  }

  /**
   * Dropping the id of the last, newest entry gives back the list before it:
   * a push whose timer fires before anything else happens leaves no trace in
   * the list.
   */
  lemma {:induction false} PushThenRemove(ns: seq<Notification>, n: Notification)
    requires forall k :: 0 <= k < |ns| ==> ns[k].id < n.id
    ensures Without(ns + [n], n.id) == ns
    decreases |ns|
  {
    if ns == [] {
      assert [n][1..] == [];
    } else {
      assert (ns + [n])[1..] == ns[1..] + [n];
      assert (ns + [n])[0] == ns[0];
      PushThenRemove(ns[1..], n);
      assert ns == [ns[0]] + ns[1..];
    }
  }

  /** The Pinia store: the `notifications` list and the `nextId` counter. */
  class NotificationStore {
    var notifications: seq<Notification>
    var nextId: int

    /** Every id in the list was handed out, and they increase along the list. */
    ghost predicate Valid()
      reads this
    {
      && nextId >= 1
      && Ascending(notifications)
      && forall k :: 0 <= k < |notifications| ==> 1 <= notifications[k].id < nextId
    }

    constructor()
      ensures Valid()
      ensures notifications == [] && nextId == 1
    {
      notifications := [];
      nextId := 1;
    }

    /**
     * `pushNotification`: the entry gets the next id, larger than every id
     * handed out before, and is appended; absent fields take their defaults.
     * `expiresAfter` is the delay of the auto-remove timer, set only for a
     * positive timeout.
     */
    method PushNotification(kind: Option<string>, message: Option<string>, timeout: Option<int>)
      returns (id: int, expiresAfter: Option<int>)
      requires Valid()
      modifies this
      ensures Valid()
      ensures id == old(nextId) && nextId == id + 1
      ensures forall k :: 0 <= k < |old(notifications)| ==> old(notifications)[k].id < id
      ensures notifications == old(notifications) + [Notification(id,
        if kind.Some? then kind.value else DefaultKind,
        if message.Some? then message.value else DefaultMessage)]
      ensures var t := if timeout.Some? then timeout.value else DefaultTimeout;
        expiresAfter == if t > 0 then Some(t) else None
    {
      var t := if timeout.Some? then timeout.value else DefaultTimeout;
      id := nextId;
      nextId := nextId + 1;
      notifications := notifications + [Notification(id,
        if kind.Some? then kind.value else DefaultKind,
        if message.Some? then message.value else DefaultMessage)];
      expiresAfter := if t > 0 then Some(t) else None;
    }

    /**
     * `removeNotification`: the entry with the id is removed and the others
     * keep their order; an absent id changes nothing.
     */
    method RemoveNotification(id: int)
      requires Valid()
      modifies this
      ensures Valid()
      ensures nextId == old(nextId)
      ensures notifications == Without(old(notifications), id)
    {
      WithoutAscending(notifications, id);
      WithoutMembers(notifications, id);
      var idx := FirstIndex(notifications, (n: Notification) => n.id == id);
      if idx != -1 {
        RemoveAtIsWithout(notifications, idx);
        notifications := RemoveAt(notifications, idx);
      } else {
        WithoutAbsent(notifications, id);
      }
    }

    /** `clear`: the list empties; the counter is not reset. */
    method Clear()
      requires Valid()
      modifies this
      ensures Valid()
      ensures notifications == [] && nextId == old(nextId)
    {
      notifications := [];
    }
  }
}
