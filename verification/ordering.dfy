/** `order_appointments`: Python's `sorted(..., key=(weight, age), reverse=True)`, a stable
    sort into non-increasing key order, in which equal keys keep their original order. */
module Ordering {
  import opened Appointments

  /** Lexicographic `>=` on (weight, age). */
  predicate KeyAtLeast(x: Appointment, y: Appointment) {
    var (kx, ky) := (Key(x), Key(y));
    kx.0 > ky.0 || (kx.0 == ky.0 && kx.1 >= ky.1)
  }

  /** Non-increasing by key: every appointment outranks or ties with every later one. */
  predicate Sorted(s: seq<Appointment>) {
    forall i, j | 0 <= i < j < |s| :: KeyAtLeast(s[i], s[j])
  }

  /** The appointments of `s` whose key is `k`, in their order in `s`. */
  function WithKey(s: seq<Appointment>, k: (int, int)): seq<Appointment>
  {
    if |s| == 0 then []
    else (if Key(s[0]) == k then [s[0]] else []) + WithKey(s[1..], k)
  }

  /** Stable reordering: for every key, the appointments with that key appear in the
      same relative order in `r` as in `s`. */
  ghost predicate SameOrderPerKey(r: seq<Appointment>, s: seq<Appointment>) {
    forall k :: WithKey(r, k) == WithKey(s, k)
  }

  /** Places `x` before the first appointment it outranks or ties with. */
  function InsertByKey(x: Appointment, r: seq<Appointment>): (t: seq<Appointment>)
    requires Sorted(r)
    ensures Sorted(t)
    ensures multiset(t) == multiset(r) + multiset{x}
    decreases |r|
  {
    if |r| == 0 || KeyAtLeast(x, r[0]) then [x] + r
    else
      var rest := InsertByKey(x, r[1..]);
      HeadStaysAhead(x, r, rest);
      [r[0]] + rest
  }

  /** When `x` goes behind the head of `r`, the head still leads the result. */
  lemma HeadStaysAhead(x: Appointment, r: seq<Appointment>, rest: seq<Appointment>)
    requires Sorted(r) && |r| > 0 && !KeyAtLeast(x, r[0])
    requires Sorted(rest) && multiset(rest) == multiset(r[1..]) + multiset{x}
    ensures Sorted([r[0]] + rest)
    ensures multiset([r[0]] + rest) == multiset(r) + multiset{x}
  {
    assert r == [r[0]] + r[1..];
    forall j | 0 <= j < |rest|
      ensures KeyAtLeast(r[0], rest[j])
    {
      assert rest[j] in multiset(rest);
      if rest[j] != x {
        assert rest[j] in r[1..];
      }
    }
  }

  /** The stable sort: insertion from the back, so an earlier appointment lands before
      every later one with the same key. */
  function OrderAppointments(s: seq<Appointment>): (r: seq<Appointment>)
    ensures Sorted(r)
    ensures multiset(r) == multiset(s)
    ensures |r| == |s|
    decreases |s|
  {
    if |s| == 0 then []
    else
      assert s == [s[0]] + s[1..];
      InsertByKey(s[0], OrderAppointments(s[1..]))
  }

  lemma {:induction false} WithKeyAppend(a: seq<Appointment>, b: seq<Appointment>, k: (int, int))
    ensures WithKey(a + b, k) == WithKey(a, k) + WithKey(b, k)
    decreases |a|
  {
    if |a| > 0 {
      assert (a + b)[0] == a[0];
      assert (a + b)[1..] == a[1..] + b;
      WithKeyAppend(a[1..], b, k);
    } else {
      assert a + b == b;
    }
  }

  lemma {:induction false} WithKeyInsert(x: Appointment, r: seq<Appointment>, k: (int, int))
    requires Sorted(r)
    ensures WithKey(InsertByKey(x, r), k) == WithKey([x] + r, k)
    decreases |r|
  {
    if |r| == 0 || KeyAtLeast(x, r[0]) {
    } else {
      WithKeyInsert(x, r[1..], k);
      assert ([x] + r)[1..] == r;
      assert ([x] + r[1..])[1..] == r[1..];
      assert r == [r[0]] + r[1..];
    }
  }

  /** The sort is stable. */
  lemma {:induction false} OrderKeepsOrderPerKey(s: seq<Appointment>)
    ensures SameOrderPerKey(OrderAppointments(s), s)
    decreases |s|
  {
    if |s| > 0 {
      OrderKeepsOrderPerKey(s[1..]);
      forall k
        ensures WithKey(OrderAppointments(s), k) == WithKey(s, k)
      {
        WithKeyInsert(s[0], OrderAppointments(s[1..]), k);
        assert ([s[0]] + OrderAppointments(s[1..]))[1..] == OrderAppointments(s[1..]);
      }
    }
  }

  lemma WithKeyHead(s: seq<Appointment>)
    requires |s| > 0
    ensures WithKey(s, Key(s[0])) == [s[0]] + WithKey(s[1..], Key(s[0]))
    ensures forall k | k != Key(s[0]) :: WithKey(s, k) == WithKey(s[1..], k)
  {
  }

  /** A sorted sequence is fixed by what it holds per key: two sorted sequences with the
      same appointments per key, in the same order, are equal. */
  lemma {:induction false} SortedUnique(r1: seq<Appointment>, r2: seq<Appointment>)
    requires Sorted(r1) && Sorted(r2)
    requires SameOrderPerKey(r1, r2)
    ensures r1 == r2
    decreases |r1|
  {
    if |r1| == 0 {
      if |r2| > 0 {
        WithKeyHead(r2);
        assert false;
      }
    } else if |r2| == 0 {
      WithKeyHead(r1);
      assert false;
    } else {
      var k1, k2 := Key(r1[0]), Key(r2[0]);
      WithKeyHead(r1);
      WithKeyHead(r2);
      if k1 != k2 {
        // r1[0] has key k1, so r2 holds an appointment with key k1 somewhere after r2[0];
        // symmetrically for k2: the two sortednesses force k1 and k2 to be equal.
        AppearsWithKey(r2, k1);
        AppearsWithKey(r1, k2);
        assert false;
      }
      assert WithKey(r1, k1) == WithKey(r2, k1);
      assert ([r1[0]] + WithKey(r1[1..], k1))[0] == ([r2[0]] + WithKey(r2[1..], k1))[0];
      assert r1[0] == r2[0];
      forall k
        ensures WithKey(r1[1..], k) == WithKey(r2[1..], k)
      {
        assert WithKey(r1, k) == WithKey(r2, k);
        if k == k1 {
          assert [r1[0]] + WithKey(r1[1..], k) == [r1[0]] + WithKey(r2[1..], k);
          assert ([r1[0]] + WithKey(r1[1..], k))[1..] == WithKey(r1[1..], k);
          assert ([r1[0]] + WithKey(r2[1..], k))[1..] == WithKey(r2[1..], k);
        }
      }
      SortedUnique(r1[1..], r2[1..]);
      assert r1 == [r1[0]] + r1[1..];
      assert r2 == [r2[0]] + r2[1..];
    }
  }

  /** In a sorted sequence, the head outranks or ties with any key that occurs in it. */
  lemma AppearsWithKey(s: seq<Appointment>, k: (int, int))
    requires Sorted(s) && |s| > 0
    requires WithKey(s, k) != []
    ensures k.0 < Key(s[0]).0 || (k.0 == Key(s[0]).0 && k.1 <= Key(s[0]).1)
  {
    if forall i | 0 <= i < |s| :: Key(s[i]) != k {
      WithKeyNone(s, k);
    } else {
      var i :| 0 <= i < |s| && Key(s[i]) == k;
      if i > 0 {
        assert KeyAtLeast(s[0], s[i]);
      }
    }
  }

  lemma {:induction false} WithKeyNone(s: seq<Appointment>, k: (int, int))
    requires forall i | 0 <= i < |s| :: Key(s[i]) != k
    ensures WithKey(s, k) == []
    decreases |s|
  {
    if |s| > 0 {
      WithKeyNone(s[1..], k);
    }
  }

  /** In a sorted queue an appointment that strictly outranks another comes before it. */
  lemma PrecedesInSorted(s: seq<Appointment>, i: int, j: int)
    requires Sorted(s) && 0 <= i < |s| && 0 <= j < |s|
    requires !KeyAtLeast(s[j], s[i])
    ensures i < j
  {
  }

  /** In a sorted queue an appointment with a strictly greater key is ahead of every copy
      of one with a smaller key. */
  lemma AheadInQueue(s: seq<Appointment>, hi: Appointment, lo: Appointment)
    requires Sorted(s) && !KeyAtLeast(lo, hi)
    ensures forall i, j | 0 <= i < |s| && 0 <= j < |s| && s[i] == hi && s[j] == lo :: i < j
  {
    forall i, j | 0 <= i < |s| && 0 <= j < |s| && s[i] == hi && s[j] == lo
      ensures i < j
    {
      PrecedesInSorted(s, i, j);
    }
  }

  /** Re-sorting an already sorted sequence changes nothing. */
  lemma {:induction false} OrderIdempotent(s: seq<Appointment>)
    requires Sorted(s)
    ensures OrderAppointments(s) == s
  {
    OrderKeepsOrderPerKey(s);
    SortedUnique(OrderAppointments(s), s);
  }

  /** Sorting the sorted queue with one more appointment appended gives the same order as
      sorting the whole history of insertions from scratch. */
  lemma OrderAfterAppend(h: seq<Appointment>, a: Appointment)
    ensures OrderAppointments(OrderAppointments(h) + [a]) == OrderAppointments(h + [a])
  {
    var q := OrderAppointments(h);
    OrderKeepsOrderPerKey(h);
    OrderKeepsOrderPerKey(q + [a]);
    OrderKeepsOrderPerKey(h + [a]);
    forall k
      ensures WithKey(OrderAppointments(q + [a]), k) == WithKey(OrderAppointments(h + [a]), k)
    {
      WithKeyAppend(q, [a], k);
      WithKeyAppend(h, [a], k);
    }
    SortedUnique(OrderAppointments(q + [a]), OrderAppointments(h + [a]));
  }
}
