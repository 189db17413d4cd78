/**
 The bounded message history and the `/api/messages` query over it:
 keep the messages whose room is the requested one, then, when a cursor is
 given, those strictly older than the cursor, and return the last twenty.
 */
module MessageStore {
  import opened Wrappers
  import opened Lists
  import opened Protocol

  /** The store never holds more messages than this. */
  const MaxMessages: nat := 100

  /** The largest page `/api/messages` returns. */
  const PageSize: nat := 20

  /** A test applied to each stored message by `Array.prototype.filter`. */
  datatype Criterion =
    | RoomIs(room: Option<RoomName>)                   // m.room === room
    | OlderThan(cursor: int)                           // new Date(m.timestamp) < new Date(before)
    | Query(room: Option<RoomName>, before: Option<int>)  // both, the cursor only when given

  predicate Holds(c: Criterion, m: Message) {
    match c
    case RoomIs(r) => m.room == r
    case OlderThan(t) => m.timestamp < t
    case Query(r, b) => m.room == r && (b.None? || m.timestamp < b.value)
  }

  /** `s.filter(m => Holds(c, m))`: the messages of `s` that pass, in the order of `s`. */
  function Filter(s: seq<Message>, c: Criterion): (r: seq<Message>)
    ensures |r| <= |s|
  {
    if s == [] then [] else (if Holds(c, s[0]) then [s[0]] else []) + Filter(s[1..], c)
  }

  /** Every message the filter keeps is in the input and passes the test. */
  lemma {:induction false} FilterSound(s: seq<Message>, c: Criterion)
    ensures forall x :: x in Filter(s, c) ==> x in s && Holds(c, x)
  {
    if s != [] {
      FilterSound(s[1..], c);
    }
  }

  /** Every message of the input that passes the test is kept. */
  lemma {:induction false} FilterComplete(s: seq<Message>, c: Criterion)
    ensures forall x :: x in s && Holds(c, x) ==> x in Filter(s, c)
  {
    if s != [] {
      FilterComplete(s[1..], c);
      assert forall x :: x in s ==> x == s[0] || x in s[1..];
    }
  }

  lemma {:induction false} FilterConcat(a: seq<Message>, b: seq<Message>, c: Criterion)
    ensures Filter(a + b, c) == Filter(a, c) + Filter(b, c)
  {
    if a == [] {
      assert a + b == b;
    } else {
      var ab := a + b;
      var head := if Holds(c, a[0]) then [a[0]] else [];
      assert ab[0] == a[0] && ab[1..] == a[1..] + b;
      FilterConcat(a[1..], b, c);
      calc {
        Filter(ab, c);
        head + Filter(a[1..] + b, c);
        head + (Filter(a[1..], c) + Filter(b, c));
        (head + Filter(a[1..], c)) + Filter(b, c);
      }
    }
  }

  /** Filtering by a criterion every element passes keeps everything. */
  lemma {:induction false} FilterAll(s: seq<Message>, c: Criterion)
    requires forall i :: 0 <= i < |s| ==> Holds(c, s[i])
    ensures Filter(s, c) == s
  {
    if s != [] {
      FilterAll(s[1..], c);
    }
  }

  /** Filtering by a criterion no element passes keeps nothing. */
  lemma {:induction false} FilterNone(s: seq<Message>, c: Criterion)
    requires forall i :: 0 <= i < |s| ==> !Holds(c, s[i])
    ensures Filter(s, c) == []
  {
    if s != [] {
      FilterNone(s[1..], c);
    }
  }

  /** Filtering twice is filtering once by a criterion that is the conjunction of the two. */
  lemma {:induction false} FilterFilter(s: seq<Message>, c1: Criterion, c2: Criterion, both: Criterion)
    requires forall i :: 0 <= i < |s| ==> (Holds(both, s[i]) <==> Holds(c1, s[i]) && Holds(c2, s[i]))
    ensures Filter(Filter(s, c1), c2) == Filter(s, both)
  {
    if s != [] {
      FilterFilter(s[1..], c1, c2, both);
      FilterConcat(if Holds(c1, s[0]) then [s[0]] else [], Filter(s[1..], c1), c2);
    }
  }

  /** Criteria that agree on every element select the same elements. */
  lemma {:induction false} FilterAgree(s: seq<Message>, c1: Criterion, c2: Criterion)
    requires forall i :: 0 <= i < |s| ==> (Holds(c1, s[i]) <==> Holds(c2, s[i]))
    ensures Filter(s, c1) == Filter(s, c2)
  {
    if s != [] {
      FilterAgree(s[1..], c1, c2);
    }
  }

  /** Every message of the store that the query asks for, in store order. */
  function Matching(ms: seq<Message>, room: Option<RoomName>, before: Option<int>): seq<Message> {
    Filter(ms, Query(room, before))
  }

  /** The source's two successive filters select exactly the messages the query asks for. */
  lemma {:induction false} TwoFiltersMatch(ms: seq<Message>, room: Option<RoomName>, before: Option<int>)
    ensures (if before.Some? then Filter(Filter(ms, RoomIs(room)), OlderThan(before.value))
             else Filter(ms, RoomIs(room)))
            == Matching(ms, room, before)
  {
    if before.Some? {
      FilterFilter(ms, RoomIs(room), OlderThan(before.value), Query(room, before));
    } else {
      FilterAgree(ms, RoomIs(room), Query(room, before));
    }
  }

  /**
   `GET /api/messages?room=…&before=…`: at most twenty messages, each in the
   requested room and older than the cursor when one is given, and they are
   the newest such messages, in store order. Fewer than twenty means every
   matching message was returned.
   */
  function Page(ms: seq<Message>, room: Option<RoomName>, before: Option<int>): (r: seq<Message>)
    ensures r == LastN(Matching(ms, room, before), PageSize)
    ensures |r| <= PageSize
    ensures |r| < PageSize ==> r == Matching(ms, room, before)
    ensures forall i :: 0 <= i < |r| ==>
      r[i] in ms && r[i].room == room && (before.Some? ==> r[i].timestamp < before.value)
  {
    var inRoom := Filter(ms, RoomIs(room));
    var filtered := if before.Some? then Filter(inRoom, OlderThan(before.value)) else inRoom;
    NewestMatching(ms, room, before);
    TwoFiltersMatch(ms, room, before);
    LastN(filtered, PageSize)
  }

  /** The newest matching messages are matching messages of the store. */
  lemma NewestMatching(ms: seq<Message>, room: Option<RoomName>, before: Option<int>)
    ensures var r := LastN(Matching(ms, room, before), PageSize);
      forall i :: 0 <= i < |r| ==> r[i] in ms && Holds(Query(room, before), r[i])
  {
    var matching := Matching(ms, room, before);
    var r := LastN(matching, PageSize);
    FilterSound(ms, Query(room, before));
    forall i | 0 <= i < |r| ensures r[i] in matching {
      assert r[i] == matching[|matching| - |r| + i];
    }
  }

  /** Timestamps strictly increase along the store. */
  ghost predicate Chronological(ms: seq<Message>) {
    forall i, j :: 0 <= i < j < |ms| ==> ms[i].timestamp < ms[j].timestamp
  }

  lemma {:induction false} FilterChronological(s: seq<Message>, c: Criterion)
    requires Chronological(s)
    ensures Chronological(Filter(s, c))
  {
    if s != [] {
      var rest := Filter(s[1..], c);
      assert Chronological(s[1..]) by {
        forall i, j | 0 <= i < j < |s[1..]| ensures s[1..][i].timestamp < s[1..][j].timestamp {
          assert s[1..][i] == s[i + 1] && s[1..][j] == s[j + 1];
        }
      }
      FilterChronological(s[1..], c);
      FilterSound(s[1..], c);
      forall i | 0 <= i < |rest| ensures s[0].timestamp < rest[i].timestamp {
        assert rest[i] in rest;
        var j :| 0 <= j < |s[1..]| && s[1..][j] == rest[i];
        assert s[j + 1] == rest[i];
      }
      var r := (if Holds(c, s[0]) then [s[0]] else []) + rest;
      forall i, j | 0 <= i < j < |r| ensures r[i].timestamp < r[j].timestamp {
        if Holds(c, s[0]) && i == 0 {
          assert r[j] == rest[j - 1];
        } else if Holds(c, s[0]) {
          assert r[i] == rest[i - 1] && r[j] == rest[j - 1];
        }
      }
    }
  }

  /** In chronological order, the messages older than the k-th are exactly the first k. */
  lemma {:induction false} OlderThanIsPrefix(q: seq<Message>, k: nat)
    requires Chronological(q) && k < |q|
    ensures Filter(q, OlderThan(q[k].timestamp)) == q[..k]
  {
    var c := OlderThan(q[k].timestamp);
    assert q == q[..k] + q[k..];
    FilterConcat(q[..k], q[k..], c);
    FilterAll(q[..k], c);
    forall i | 0 <= i < |q[k..]| ensures !Holds(c, q[k..][i]) {
      assert q[k..][i] == q[k + i];
    }
    FilterNone(q[k..], c);
  }

  /**
   Paging backwards with the oldest returned timestamp as the next cursor
   continues exactly where the previous page stopped, provided timestamps
   increase along the store: the next query matches every earlier match
   that was not returned, and nothing else.
   */
  lemma {:induction false} NextPageContinues(ms: seq<Message>, room: Option<RoomName>, before: Option<int>)
    requires Chronological(ms)
    requires Page(ms, room, before) != []
    ensures var q := Matching(ms, room, before);
            var p := Page(ms, room, before);
            Matching(ms, room, Some(p[0].timestamp)) == q[..|q| - |p|]
            && Page(ms, room, Some(p[0].timestamp)) == LastN(q[..|q| - |p|], PageSize)
  {
    var q := Matching(ms, room, before);
    var p := Page(ms, room, before);
    var k := |q| - |p|;
    assert p[0] == q[k];
    var t := q[k].timestamp;
    FilterChronological(ms, Query(room, before));
    OlderThanIsPrefix(q, k);
    assert Holds(Query(room, before), q[k]);
    FilterFilter(ms, Query(room, before), OlderThan(t), Query(room, Some(t)));
    var next := Matching(ms, room, Some(t));
    var np := Page(ms, room, Some(t));
    assert np == next[|next| - |np|..];
  }

  /**
   Timestamps never decrease along the store. Messages stored in the same
   millisecond share a timestamp, so this, not `Chronological`, is what
   `send_message` guarantees with a clock that does not go backwards.
   */
  ghost predicate NonDecreasing(ms: seq<Message>) {
    forall i, j :: 0 <= i < j < |ms| ==> ms[i].timestamp <= ms[j].timestamp
  }

  lemma {:induction false} FilterNonDecreasing(s: seq<Message>, c: Criterion)
    requires NonDecreasing(s)
    ensures NonDecreasing(Filter(s, c))
  {
    if s != [] {
      var rest := Filter(s[1..], c);
      assert NonDecreasing(s[1..]) by {
        forall i, j | 0 <= i < j < |s[1..]| ensures s[1..][i].timestamp <= s[1..][j].timestamp {
          assert s[1..][i] == s[i + 1] && s[1..][j] == s[j + 1];
        }
      }
      FilterNonDecreasing(s[1..], c);
      FilterSound(s[1..], c);
      forall i | 0 <= i < |rest| ensures s[0].timestamp <= rest[i].timestamp {
        assert rest[i] in rest;
        var j :| 0 <= j < |s[1..]| && s[1..][j] == rest[i];
        assert s[j + 1] == rest[i];
      }
      var r := (if Holds(c, s[0]) then [s[0]] else []) + rest;
      forall i, j | 0 <= i < j < |r| ensures r[i].timestamp <= r[j].timestamp {
        if Holds(c, s[0]) && i == 0 {
          assert r[j] == rest[j - 1];
        } else if Holds(c, s[0]) {
          assert r[i] == rest[i - 1] && r[j] == rest[j - 1];
        }
      }
    }
  }

  /** How many leading messages are older than `t`. */
  function OlderCount(q: seq<Message>, t: int): (n: nat)
    ensures n <= |q|
  {
    if q == [] || q[0].timestamp >= t then 0 else 1 + OlderCount(q[1..], t)
  }

  /**
   With ties allowed, the messages older than `t` are still a prefix: the
   first `OlderCount(q, t)` messages, and no message after them is older.
   */
  lemma {:induction false} OlderThanIsPrefixWithTies(q: seq<Message>, t: int)
    requires NonDecreasing(q)
    ensures Filter(q, OlderThan(t)) == q[..OlderCount(q, t)]
    ensures forall i :: 0 <= i < |q| ==> (q[i].timestamp < t <==> i < OlderCount(q, t))
  {
    if q == [] {
    } else if q[0].timestamp >= t {
      forall i | 0 <= i < |q| ensures !Holds(OlderThan(t), q[i]) {
        assert q[0].timestamp <= q[i].timestamp || i == 0;
      }
      FilterNone(q, OlderThan(t));
    } else {
      assert NonDecreasing(q[1..]) by {
        forall i, j | 0 <= i < j < |q[1..]| ensures q[1..][i].timestamp <= q[1..][j].timestamp {
          assert q[1..][i] == q[i + 1] && q[1..][j] == q[j + 1];
        }
      }
      OlderThanIsPrefixWithTies(q[1..], t);
      var n := OlderCount(q, t);
      assert q[..n] == [q[0]] + q[1..][..n - 1];
      forall i | 1 <= i < |q| ensures (q[i].timestamp < t <==> i < n) {
        assert q[i] == q[1..][i - 1];
      }
    }
  }

  /**
   Paging backwards when timestamps may tie: the next query matches only the
   earlier matches strictly older than the oldest returned message. Every
   unreturned match that shares that timestamp, `q[j..|q| - |p|]`, is left out
   of the next page and, since later cursors are no larger, of every later one.
   */
  lemma {:induction false} NextPageSkipsTies(ms: seq<Message>, room: Option<RoomName>, before: Option<int>)
    requires NonDecreasing(ms)
    requires Page(ms, room, before) != []
    ensures var q := Matching(ms, room, before);
            var p := Page(ms, room, before);
            var j := OlderCount(q, p[0].timestamp);
            && j <= |q| - |p|
            && (forall i :: j <= i < |q| - |p| ==> q[i].timestamp == p[0].timestamp)
            && Matching(ms, room, Some(p[0].timestamp)) == q[..j]
  {
    var q := Matching(ms, room, before);
    var p := Page(ms, room, before);
    var k := |q| - |p|;
    assert p[0] == q[k];
    var t := q[k].timestamp;
    var j := OlderCount(q, t);
    assert Matching(ms, room, Some(t)) == Filter(q, OlderThan(t)) by {
      assert Holds(Query(room, before), q[k]);
      FilterFilter(ms, Query(room, before), OlderThan(t), Query(room, Some(t)));
    }
    assert NonDecreasing(q) by {
      FilterNonDecreasing(ms, Query(room, before));
    }
    OlderThanIsPrefixWithTies(q, t);
    assert j <= k;
    forall i | j <= i < k ensures q[i].timestamp == t {
      assert q[i].timestamp <= q[k].timestamp;
    }
  }

  /**
   Counterexample: twenty-one messages of one room stored in the same
   millisecond. The first page is the newest twenty, and the next page, asked
   for with the oldest returned timestamp as cursor, is empty, so the oldest
   message is never returned.
   */
  lemma TiedTimestampsLoseAMessage()
    ensures var ms := seq(21, i => Message(i, "a", "a", Text("hi"), Some("general"), 0, false));
            var p := Page(ms, Some("general"), None);
            && p == ms[1..]
            && ms[0] !in p
            && Page(ms, Some("general"), Some(p[0].timestamp)) == []
  {
    var ms := seq(21, i => Message(i, "a", "a", Text("hi"), Some("general"), 0, false));
    FilterAll(ms, Query(Some("general"), None));
    FilterNone(ms, Query(Some("general"), Some(0)));
    var p := Page(ms, Some("general"), None);
    assert p == ms[1..];
    forall i | 0 <= i < |p| ensures p[i] != ms[0] {
      assert p[i].id == i + 1;
    }
  }
}
