/**
 The seen tracker: message id → the users who acknowledged it, each at most
 once, in order of arrival. Any message id and user id is accepted.
 */
module SeenTracker {
  import opened Lists
  import opened Protocol

  type SeenTable = map<MsgId, seq<UserId>>

  /** The users recorded for a message; none when it has no entry. */
  function SeenBy(t: SeenTable, m: MsgId): seq<UserId> {
    if m in t then t[m] else []
  }

  /** No list names a user twice. */
  ghost predicate WellFormed(t: SeenTable) {
    forall m :: m in t ==> Distinct(t[m])
  }

  /**
   The table after `message_seen(m, u)`: unchanged exactly when `u` was
   already recorded for `m`; otherwise `u` is appended to `m`'s list. Other
   messages keep their lists.
   */
  function WithSeen(t: SeenTable, m: MsgId, u: UserId): (r: SeenTable)
    ensures r == t <==> u in SeenBy(t, m)
    ensures SeenBy(r, m) == AddOnce(SeenBy(t, m), u)
    ensures r.Keys == t.Keys + {m}
    ensures forall m' :: m' in t && m' != m ==> r[m'] == t[m']
  {
    if u in SeenBy(t, m) then t else t[m := SeenBy(t, m) + [u]]
  }

  /**
   The handler's steps, in place: create an empty list for an unknown
   message, then push the user unless the list includes them. They compute
   `WithSeen`, and change nothing when the user is already listed.
   */
  lemma MarkSeenSteps(t: SeenTable, m: MsgId, u: UserId)
    ensures var t1 := if m !in t then t[m := []] else t;
      && t1[m] == SeenBy(t, m)
      && (u !in t1[m] ==> t1[m := t1[m] + [u]] == WithSeen(t, m, u))
      && (u in t1[m] ==> t1 == t && WithSeen(t, m, u) == t)
  {
  }

  /**
   Marking the same message seen twice: the first call records the user and
   the second finds them and changes nothing, and the user is listed once.
   */
  lemma SeenTwice(t: SeenTable, m: MsgId, u: UserId)
    requires WellFormed(t)
    ensures var r := WithSeen(t, m, u);
            && WellFormed(r)
            && u in SeenBy(r, m)
            && WithSeen(r, m, u) == r
            && Count(SeenBy(r, m), u) == 1
  {
    var r := WithSeen(t, m, u);
    assert Distinct(SeenBy(t, m));
    forall m' | m' in r ensures Distinct(r[m']) {
      if m' == m { assert r[m'] == SeenBy(r, m); }
    }
    CountDistinct(SeenBy(r, m), u);
  }
}
