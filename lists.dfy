/**
 Sequence helpers for the array idioms the server uses: a list kept free of
 duplicates by `includes` followed by `push`, and `slice(-n)`.
 */
module Lists {

  /** No element occurs twice. */
  ghost predicate Distinct<T>(s: seq<T>) {
    forall i, j :: 0 <= i < j < |s| ==> s[i] != s[j]
  }

  /** The number of occurrences of `x` in `s`. */
  ghost function Count<T>(s: seq<T>, x: T): nat {
    if s == [] then 0 else (if s[0] == x then 1 else 0) + Count(s[1..], x)
  }

  /** The position of the first occurrence of `x` in `s`. */
  function IndexOf<T(==)>(s: seq<T>, x: T): (i: nat)
    requires x in s
    ensures i < |s| && s[i] == x
    ensures x !in s[..i]
  {
    if s[0] == x then 0
    else
      var i := 1 + IndexOf(s[1..], x);
      assert s[..i] == [s[0]] + s[1..][..i - 1];
      i
  }

  /**
   `if (!list.includes(x)) list.push(x)`: the list used as an insertion-ordered
   set. The old list stays a prefix, `x` is present afterwards, and a list
   without duplicates keeps none.
   */
  function AddOnce<T(==)>(s: seq<T>, x: T): (r: seq<T>)
    ensures x in r
    ensures |s| <= |r| && r[..|s|] == s
    ensures forall i :: 0 <= i < |r| ==> r[i] in s || r[i] == x
    ensures |r| == if x in s then |s| else |s| + 1
    ensures Distinct(s) ==> Distinct(r)
  {
    if x in s then s else s + [x]
  }

  /** In a list without duplicates every value occurs at most once. */
  lemma {:induction false} CountDistinct<T>(s: seq<T>, x: T)
    requires Distinct(s)
    ensures Count(s, x) == if x in s then 1 else 0
  {
    if s != [] {
      assert Distinct(s[1..]) by {
        forall i, j | 0 <= i < j < |s[1..]| ensures s[1..][i] != s[1..][j] {
          assert s[1..][i] == s[i + 1] && s[1..][j] == s[j + 1];
        }
      }
      CountDistinct(s[1..], x);
      if s[0] == x {
        assert x !in s[1..] by {
          forall j | 0 <= j < |s[1..]| ensures s[1..][j] != x {
            assert s[1..][j] == s[j + 1];
          }
        }
      }
      assert x in s <==> s[0] == x || x in s[1..];
    }
  }

  /** Taking out the element at position `i` of a list without duplicates leaves one without it. */
  lemma RemoveAt<T>(s: seq<T>, i: nat)
    requires Distinct(s) && i < |s|
    ensures Distinct(s[..i] + s[i + 1..])
    ensures forall x :: x in s[..i] + s[i + 1..] <==> x in s && x != s[i]
  {
    var rest := s[..i] + s[i + 1..];
    forall j | 0 <= j < |rest| ensures rest[j] == s[if j < i then j else j + 1] {
    }
    forall x | x in s && x != s[i] ensures x in rest {
      var p :| 0 <= p < |s| && s[p] == x;
      assert rest[if p < i then p else p - 1] == x;
    }
  }

  /**
   The last `n` elements of `s`, or all of it when it is shorter: JavaScript's
   `slice(-n)`, which needs `n > 0` (`slice(-0)` is the whole array).
   */
  function LastN<T>(s: seq<T>, n: nat): (r: seq<T>)
    requires n > 0
    ensures |r| == if |s| < n then |s| else n
    ensures r == s[|s| - |r|..]
  {
    if |s| <= n then s else s[|s| - n..]
  }

  /**
   Appending one element and then keeping the last `n` drops exactly the oldest
   kept element once `n` are kept, and drops nothing before that.
   */
  lemma {:induction false} LastNSnoc<T>(h: seq<T>, x: T, n: nat)
    requires n > 0
    ensures LastN(h + [x], n) ==
      if |LastN(h, n)| < n then LastN(h, n) + [x] else LastN(h, n)[1..] + [x]
  {
    if |h| >= n {
      assert (h + [x])[|h| + 1 - n..] == h[|h| - n..][1..] + [x];
    }
  }
}
