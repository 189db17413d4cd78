/**
 The reaction aggregator: message id → emoji → the users who reacted with
 that emoji, each user listed at most once, in order of arrival. Any message
 id and user id is accepted; nothing checks that the message exists.
 */
module Reactions {
  import opened Lists
  import opened Protocol

  type ReactionTable = map<MsgId, map<Emoji, seq<UserId>>>

  /** The users recorded for one emoji on one message; none when either key is missing. */
  function Reactors(t: ReactionTable, m: MsgId, e: Emoji): seq<UserId> {
    if m in t && e in t[m] then t[m][e] else []
  }

  /** No list of reactors names a user twice. */
  ghost predicate WellFormed(t: ReactionTable) {
    forall m, e :: m in t && e in t[m] ==> Distinct(t[m][e])
  }

  /**
   The table after `add_reaction(m, e, u)`: the entries for `m` and for
   `(m, e)` exist, `u` is among the reactors of `(m, e)` appended at the end
   unless already present, and every other message and emoji is left as it was.
   */
  function WithReaction(t: ReactionTable, m: MsgId, e: Emoji, u: UserId): (r: ReactionTable)
    ensures r.Keys == t.Keys + {m}
    ensures r[m].Keys == (if m in t then t[m].Keys else {}) + {e}
    ensures Reactors(r, m, e) == AddOnce(Reactors(t, m, e), u)
    ensures forall m' :: m' in t && m' != m ==> r[m'] == t[m']
    ensures forall e' :: m in t && e' in t[m] && e' != e ==> r[m][e'] == t[m][e']
  {
    var forMessage := if m in t then t[m] else map[];
    var reactors := if e in forMessage then forMessage[e] else [];
    t[m := forMessage[e := AddOnce(reactors, u)]]
  }

  /**
   The handler's steps, in place: create an empty map for an unknown message,
   an empty list for an unknown emoji, then push the user unless the list
   includes them. They compute `WithReaction`, and change nothing when the
   user is already listed.
   */
  lemma AddReactionSteps(t: ReactionTable, m: MsgId, e: Emoji, u: UserId)
    ensures var t1 := if m !in t then t[m := map[]] else t;
      var forMessage := if e !in t1[m] then t1[m][e := []] else t1[m];
      && forMessage[e] == Reactors(t, m, e)
      && (u !in forMessage[e] ==> t1[m := forMessage[e := forMessage[e] + [u]]] == WithReaction(t, m, e, u))
      && (u in forMessage[e] ==> t1 == t && WithReaction(t, m, e, u) == t)
  {
    var t1 := if m !in t then t[m := map[]] else t;
    var forMessage := if e !in t1[m] then t1[m][e := []] else t1[m];
    if u in forMessage[e] {
      assert m in t && e in t[m];
      assert forMessage[e := forMessage[e]] == t[m];
    } else {
      var reactors := forMessage[e] + [u];
      assert reactors == AddOnce(Reactors(t, m, e), u);
      assert forMessage[e := reactors] == (if m in t then t[m] else map[])[e := reactors];
      assert t1[m := forMessage[e := reactors]] == t[m := forMessage[e := reactors]];
    }
  }

  /**
   Reacting keeps the table free of duplicates, and afterwards the user is
   listed exactly once for that message and emoji.
   */
  lemma ReactionRecordedOnce(t: ReactionTable, m: MsgId, e: Emoji, u: UserId)
    requires WellFormed(t)
    ensures WellFormed(WithReaction(t, m, e, u))
    ensures Count(Reactors(WithReaction(t, m, e, u), m, e), u) == 1
  {
    var r := WithReaction(t, m, e, u);
    assert Distinct(Reactors(t, m, e));
    forall m', e' | m' in r && e' in r[m'] ensures Distinct(r[m'][e']) {
      if m' == m && e' == e {
        assert r[m'][e'] == Reactors(r, m, e);
      }
    }
    CountDistinct(Reactors(r, m, e), u);
  }

  /** Repeating the same reaction changes nothing. */
  lemma ReactionIdempotent(t: ReactionTable, m: MsgId, e: Emoji, u: UserId)
    ensures WithReaction(WithReaction(t, m, e, u), m, e, u) == WithReaction(t, m, e, u)
  {
    var r := WithReaction(t, m, e, u);
    assert r[m][e] == Reactors(r, m, e);
    assert r[m][e := AddOnce(r[m][e], u)] == r[m];
  }

  /** No reaction is ever lost: whoever was listed for any message and emoji still is. */
  lemma ReactionsOnlyGrow(t: ReactionTable, m: MsgId, e: Emoji, u: UserId, m': MsgId, e': Emoji)
    ensures forall i :: 0 <= i < |Reactors(t, m', e')| ==>
      Reactors(t, m', e')[i] == Reactors(WithReaction(t, m, e, u), m', e')[i]
  {
    var r := WithReaction(t, m, e, u);
    if m' == m && e' == e {
      assert Reactors(r, m', e')[..|Reactors(t, m', e')|] == Reactors(t, m', e');
    }
  }
}
