/** Relational operations on tables held as sequences of rows: selection by a
    row predicate, a per-row map, and the inner equi-join, with the membership
    and multiplicity facts that the pipeline's properties rest on. */
module Relational {

  // ---------------------------------------------------------------- selection

  /** The rows satisfying p, in their original order (a boolean-mask selection). */
  function Filter<T>(s: seq<T>, p: T -> bool): (r: seq<T>)
    ensures |r| <= |s|
    ensures forall i :: 0 <= i < |r| ==> r[i] in s && p(r[i])
  {
    if s == [] then [] else (if p(s[0]) then [s[0]] else []) + Filter(s[1..], p)
  }

  /** A row is selected exactly when it is in the input and satisfies p. */
  lemma {:induction false} FilterMembership<T>(s: seq<T>, p: T -> bool, x: T)
    ensures x in Filter(s, p) <==> x in s && p(x)
  {
    if s != [] {
      FilterMembership(s[1..], p, x);
      assert s == [s[0]] + s[1..];
    }
  }

  /** Every row satisfying p survives as often as it occurs; no other row survives. */
  lemma {:induction false} FilterMultiset<T>(s: seq<T>, p: T -> bool, x: T)
    ensures multiset(Filter(s, p))[x] == if p(x) then multiset(s)[x] else 0
  {
    if s != [] {
      FilterMultiset(s[1..], p, x);
      assert s == [s[0]] + s[1..];
      assert multiset(s) == multiset([s[0]]) + multiset(s[1..]);
    }
  }

  /** Selection commutes with concatenation, so the survivors keep their relative order. */
  lemma {:induction false} FilterAppend<T>(s: seq<T>, t: seq<T>, p: T -> bool)
    ensures Filter(s + t, p) == Filter(s, p) + Filter(t, p)
  {
    if s == [] {
      assert s + t == t;
    } else {
      assert (s + t)[0] == s[0];
      assert (s + t)[1..] == s[1..] + t;
      FilterAppend(s[1..], t, p);
    }
  }

  /** The selection is empty exactly when no row satisfies p. */
  lemma {:induction false} FilterEmpty<T>(s: seq<T>, p: T -> bool)
    ensures Filter(s, p) == [] <==> forall i :: 0 <= i < |s| ==> !p(s[i])
  {
    if s != [] {
      FilterEmpty(s[1..], p);
      if p(s[0]) {
        assert Filter(s, p)[0] == s[0];
      } else {
        forall i | 0 < i < |s| ensures s[i] == s[1..][i - 1] { }
      }
    }
  }

  /** Selecting with q and then with r is selecting once with their conjunction. */
  lemma {:induction false} FilterFilter<T>(s: seq<T>, q: T -> bool, r: T -> bool, qr: T -> bool)
    requires forall x :: qr(x) == (q(x) && r(x))
    ensures Filter(Filter(s, q), r) == Filter(s, qr)
  {
    if s != [] {
      FilterFilter(s[1..], q, r, qr);
      var head := if q(s[0]) then [s[0]] else [];
      FilterAppend(head, Filter(s[1..], q), r);
      if q(s[0]) {
        assert Filter(head, r) == Filter([s[0]], r);
        assert Filter([s[0]], r) == (if r(s[0]) then [s[0]] else []) + Filter([], r);
      }
    }
  }

  // ---------------------------------------------------------------------- map

  /** The rows transformed one by one (a whole-column assignment). */
  function Map<A, B>(s: seq<A>, f: A -> B): (r: seq<B>)
    ensures |r| == |s|
    ensures forall i :: 0 <= i < |s| ==> r[i] == f(s[i])
  {
    if s == [] then [] else [f(s[0])] + Map(s[1..], f)
  }

  /** An output row is the image of some input row, and every image is present. */
  lemma MapMembership<A, B>(s: seq<A>, f: A -> B, y: B)
    ensures y in Map(s, f) <==> exists x :: x in s && f(x) == y
  {
    var r := Map(s, f);
    if y in r {
      var i :| 0 <= i < |r| && r[i] == y;
      assert s[i] in s && f(s[i]) == y;
    }
    if exists x :: x in s && f(x) == y {
      var x :| x in s && f(x) == y;
      var i :| 0 <= i < |s| && s[i] == x;
      assert r[i] == y;
    }
  }

  /** Selecting after a map is mapping after the corresponding selection. */
  lemma {:induction false} FilterMap<A, B>(s: seq<A>, f: A -> B, p: B -> bool, q: A -> bool)
    requires forall x :: q(x) == p(f(x))
    ensures Filter(Map(s, f), p) == Map(Filter(s, q), f)
  {
    if s != [] {
      var m := Map(s, f);
      assert m == [f(s[0])] + Map(s[1..], f);
      assert m[0] == f(s[0]) && m[1..] == Map(s[1..], f);
      FilterMap(s[1..], f, p, q);
      var head := if q(s[0]) then [s[0]] else [];
      var fs := Filter(s[1..], q);
      assert Filter(s, q) == head + fs;
      if q(s[0]) {
        assert Map(head + fs, f) == [f(s[0])] + Map(fs, f) by {
          assert (head + fs)[0] == s[0] && (head + fs)[1..] == fs;
        }
      } else {
        assert head + fs == fs;
      }
    }
  }

  // --------------------------------------------------------------------- join

  /** The pairs of l with each row of right whose key equals l's key, in right's order. */
  function Matches<L, R, K(==)>(l: L, right: seq<R>, lk: L -> K, rk: R -> K): (r: seq<(L, R)>)
    ensures |r| <= |right|
    ensures forall i :: 0 <= i < |r| ==> r[i].0 == l && r[i].1 in right && rk(r[i].1) == lk(l)
  {
    if right == [] then []
    else (if rk(right[0]) == lk(l) then [(l, right[0])] else []) + Matches(l, right[1..], lk, rk)
  }

  /** Inner equi-join: every pair of a left row and a right row with equal keys.
      The order (left rows in order, each with its partners in order) is one
      choice among those the source allows; nothing below depends on it but
      FilterJoin, which holds for every such order. */
  function Join<L, R, K(==)>(left: seq<L>, right: seq<R>, lk: L -> K, rk: R -> K): (r: seq<(L, R)>)
    ensures forall i :: 0 <= i < |r| ==> r[i].0 in left && r[i].1 in right && lk(r[i].0) == rk(r[i].1)
  {
    if left == [] then [] else Matches(left[0], right, lk, rk) + Join(left[1..], right, lk, rk)
  }

  /** Number of rows of right whose key is k. */
  function CountKey<R, K(==)>(right: seq<R>, rk: R -> K, k: K): nat
  {
    if right == [] then 0 else (if rk(right[0]) == k then 1 else 0) + CountKey(right[1..], rk, k)
  }

  /** Number of joined pairs whose left component is l. */
  function CountLeft<L(==), R>(s: seq<(L, R)>, l: L): nat
  {
    if s == [] then 0 else (if s[0].0 == l then 1 else 0) + CountLeft(s[1..], l)
  }

  lemma {:induction false} CountKeyAppend<R, K>(a: seq<R>, b: seq<R>, rk: R -> K, k: K)
    ensures CountKey(a + b, rk, k) == CountKey(a, rk, k) + CountKey(b, rk, k)
  {
    if a == [] {
      assert a + b == b;
    } else {
      assert (a + b)[0] == a[0];
      assert (a + b)[1..] == a[1..] + b;
      CountKeyAppend(a[1..], b, rk, k);
    }
  }

  /** Counting keys after a map that keeps each row's key is counting before it. */
  lemma {:induction false} CountKeyMap<A, B, K>(s: seq<A>, f: A -> B, ka: A -> K, kb: B -> K, k: K)
    requires forall x :: kb(f(x)) == ka(x)
    ensures CountKey(Map(s, f), kb, k) == CountKey(s, ka, k)
  {
    if s != [] {
      CountKeyMap(s[1..], f, ka, kb, k);
      assert Map(s, f)[0] == f(s[0]) && Map(s, f)[1..] == Map(s[1..], f);
    }
  }

  lemma {:induction false} CountLeftAppend<L, R>(a: seq<(L, R)>, b: seq<(L, R)>, l: L)
    ensures CountLeft(a + b, l) == CountLeft(a, l) + CountLeft(b, l)
  {
    if a == [] {
      assert a + b == b;
    } else {
      assert (a + b)[0] == a[0];
      assert (a + b)[1..] == a[1..] + b;
      CountLeftAppend(a[1..], b, l);
    }
  }

  lemma {:induction false} MatchesCountLeft<L, R, K>(a: L, right: seq<R>, lk: L -> K, rk: R -> K, l: L)
    ensures CountLeft(Matches(a, right, lk, rk), l) == if a == l then CountKey(right, rk, lk(l)) else 0
  {
    if right != [] {
      var head := if rk(right[0]) == lk(a) then [(a, right[0])] else [];
      MatchesCountLeft(a, right[1..], lk, rk, l);
      CountLeftAppend(head, Matches(a, right[1..], lk, rk), l);
      if rk(right[0]) == lk(a) {
        assert CountLeft(head, l) == (if a == l then 1 else 0) + CountLeft(head[1..], l);
        assert head[1..] == [];
      }
    }
  }

  /** Fan-out: a left row occurring n times whose key is matched by k right rows
      yields n * k pairs; a left row with no partner yields none. */
  lemma {:induction false} JoinFanOut<L, R, K>(left: seq<L>, right: seq<R>, lk: L -> K, rk: R -> K, l: L)
    ensures CountLeft(Join(left, right, lk, rk), l) == multiset(left)[l] * CountKey(right, rk, lk(l))
  {
    if left != [] {
      var k := CountKey(right, rk, lk(l));
      var rest := multiset(left[1..])[l];
      var tail := Join(left[1..], right, lk, rk);
      assert Join(left, right, lk, rk) == Matches(left[0], right, lk, rk) + tail;
      JoinFanOut(left[1..], right, lk, rk, l);
      MatchesCountLeft(left[0], right, lk, rk, l);
      CountLeftAppend(Matches(left[0], right, lk, rk), tail, l);
      MultisetHead(left, l);
      if left[0] == l {
        MulAddDistrib(1, rest, k);
      }
    }
  }

  /** Occurrences in a non-empty sequence: the head's plus the tail's. */
  lemma MultisetHead<T>(s: seq<T>, x: T)
    requires s != []
    ensures multiset(s)[x] == (if s[0] == x then 1 else 0) + multiset(s[1..])[x]
  {
    assert s == [s[0]] + s[1..];
    assert multiset(s) == multiset([s[0]]) + multiset(s[1..]);
  }

  lemma MulAddDistrib(a: int, b: int, c: int)
    ensures (a + b) * c == a * c + b * c
  {
  }

  lemma {:induction false} MatchesMembership<L, R, K>(a: L, right: seq<R>, lk: L -> K, rk: R -> K, l: L, r: R)
    ensures (l, r) in Matches(a, right, lk, rk) <==> l == a && r in right && lk(l) == rk(r)
  {
    if right != [] {
      MatchesMembership(a, right[1..], lk, rk, l, r);
      assert right == [right[0]] + right[1..];
    }
  }

  /** A pair is joined exactly when its rows come from the two inputs and their keys agree. */
  lemma {:induction false} JoinMembership<L, R, K>(left: seq<L>, right: seq<R>, lk: L -> K, rk: R -> K, l: L, r: R)
    ensures (l, r) in Join(left, right, lk, rk) <==> l in left && r in right && lk(l) == rk(r)
  {
    if left != [] {
      JoinMembership(left[1..], right, lk, rk, l, r);
      MatchesMembership(left[0], right, lk, rk, l, r);
      assert left == [left[0]] + left[1..];
    }
  }

  lemma {:induction false} MatchesMultiset<L, R, K>(a: L, right: seq<R>, lk: L -> K, rk: R -> K, l: L, r: R)
    ensures multiset(Matches(a, right, lk, rk))[(l, r)] == if a == l && lk(l) == rk(r) then multiset(right)[r] else 0
  {
    if right != [] {
      var head := if rk(right[0]) == lk(a) then [(a, right[0])] else [];
      var tail := Matches(a, right[1..], lk, rk);
      assert multiset(Matches(a, right, lk, rk)) == multiset(head) + multiset(tail);
      MatchesMultiset(a, right[1..], lk, rk, l, r);
      MultisetHead(right, r);
    }
  }

  /** Multiplicity of the join: the pair (l, r) of matching keys occurs as often as
      l occurs on the left times as often as r occurs on the right. */
  lemma {:induction false} JoinMultiset<L, R, K>(left: seq<L>, right: seq<R>, lk: L -> K, rk: R -> K, l: L, r: R)
    ensures multiset(Join(left, right, lk, rk))[(l, r)] ==
            if lk(l) == rk(r) then multiset(left)[l] * multiset(right)[r] else 0
  {
    if left != [] {
      JoinStep(left, right, lk, rk, (l, r));
      JoinMultiset(left[1..], right, lk, rk, l, r);
      MatchesMultiset(left[0], right, lk, rk, l, r);
      MultisetHead(left, l);
      if lk(l) == rk(r) {
        MulAddDistrib(if left[0] == l then 1 else 0, multiset(left[1..])[l], multiset(right)[r]);
      }
    }
  }

  lemma JoinStep<L, R, K>(left: seq<L>, right: seq<R>, lk: L -> K, rk: R -> K, x: (L, R))
    requires left != []
    ensures multiset(Join(left, right, lk, rk))[x] ==
            multiset(Matches(left[0], right, lk, rk))[x] + multiset(Join(left[1..], right, lk, rk))[x]
  {
    var a := Matches(left[0], right, lk, rk);
    var b := Join(left[1..], right, lk, rk);
    assert Join(left, right, lk, rk) == a + b;
    assert multiset(a + b) == multiset(a) + multiset(b);
  }

  lemma {:induction false} FilterMatches<L, R, K>(a: L, right: seq<R>, lk: L -> K, rk: R -> K,
                                                  pl: L -> bool, pr: R -> bool, p: ((L, R)) -> bool)
    requires forall x :: p(x) == (pl(x.0) && pr(x.1))
    ensures Filter(Matches(a, right, lk, rk), p) == if pl(a) then Matches(a, Filter(right, pr), lk, rk) else []
  {
    if right != [] {
      var x := right[0];
      var head := if rk(x) == lk(a) then [(a, x)] else [];
      var tail := Matches(a, right[1..], lk, rk);
      FilterMatches(a, right[1..], lk, rk, pl, pr, p);
      FilterAppend(head, tail, p);
      var fhead := if pr(x) then [x] else [];
      var ftail := Filter(right[1..], pr);
      assert Filter(right, pr) == fhead + ftail;
      if pl(a) {
        MatchesAppend(a, fhead, ftail, lk, rk);
        if rk(x) == lk(a) {
          assert Filter(head, p) == (if p((a, x)) then [(a, x)] else []) + Filter([], p);
          assert Matches(a, fhead, lk, rk) == (if pr(x) then [(a, x)] else []) by {
            if pr(x) {
              assert Matches(a, fhead, lk, rk) == [(a, x)] + Matches(a, [], lk, rk);
            }
          }
        } else {
          assert Matches(a, fhead, lk, rk) == [] by {
            if pr(x) {
              assert Matches(a, fhead, lk, rk) == [] + Matches(a, [], lk, rk);
            }
          }
        }
      } else if rk(x) == lk(a) {
        assert Filter(head, p) == (if p((a, x)) then [(a, x)] else []) + Filter([], p);
      }
    }
  }

  lemma {:induction false} MatchesAppend<L, R, K>(a: L, s: seq<R>, t: seq<R>, lk: L -> K, rk: R -> K)
    ensures Matches(a, s + t, lk, rk) == Matches(a, s, lk, rk) + Matches(a, t, lk, rk)
  {
    if s == [] {
      assert s + t == t;
    } else {
      assert (s + t)[0] == s[0];
      assert (s + t)[1..] == s[1..] + t;
      MatchesAppend(a, s[1..], t, lk, rk);
    }
  }

  /** Selecting joined pairs by a condition on each side is joining the two selections. */
  lemma {:induction false} FilterJoin<L, R, K>(left: seq<L>, right: seq<R>, lk: L -> K, rk: R -> K,
                                                    pl: L -> bool, pr: R -> bool, p: ((L, R)) -> bool)
    requires forall x :: p(x) == (pl(x.0) && pr(x.1))
    ensures Filter(Join(left, right, lk, rk), p) == Join(Filter(left, pl), Filter(right, pr), lk, rk)
  {
    if left != [] {
      FilterJoin(left[1..], right, lk, rk, pl, pr, p);
      FilterMatches(left[0], right, lk, rk, pl, pr, p);
      FilterAppend(Matches(left[0], right, lk, rk), Join(left[1..], right, lk, rk), p);
      var fl := Filter(left, pl);
      if pl(left[0]) {
        assert fl == [left[0]] + Filter(left[1..], pl);
        assert fl[0] == left[0] && fl[1..] == Filter(left[1..], pl);
      } else {
        assert fl == Filter(left[1..], pl);
      }
    }
  }
}
