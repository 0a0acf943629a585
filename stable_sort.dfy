/**
 * `list.sort(key=lambda a: a["minutes"])`: Python's sort is stable, so
 * the result is the one sorted sequence that keeps, for every minute
 * value, the records with that value in their original order. The model
 * computes it by insertion; `StableSortIsUnique` shows that any sorted,
 * order-keeping arrangement is this one.
 */
module StableSort {
  import opened Records

  predicate SortedByMinutes(s: seq<Arrival>)
  {
    forall i, j :: 0 <= i < j < |s| ==> s[i].minutes <= s[j].minutes
  }

  /** The records of `s` whose `minutes` is `m`, in the order of `s`. */
  function WithMinutes(s: seq<Arrival>, m: int): seq<Arrival>
    decreases |s|
  {
    if |s| == 0 then []
    else WithMinutes(s[..|s| - 1], m) + (if s[|s| - 1].minutes == m then [s[|s| - 1]] else [])
  }

  /** Places `x` after every record of `s` whose minutes are not larger. */
  function Insert(x: Arrival, s: seq<Arrival>): (r: seq<Arrival>)
    ensures |r| == |s| + 1
    decreases |s|
  {
    if |s| == 0 then [x]
    else if s[|s| - 1].minutes <= x.minutes then s + [x]
    else Insert(x, s[..|s| - 1]) + [s[|s| - 1]]
  }

  function SortByMinutes(s: seq<Arrival>): (r: seq<Arrival>)
    ensures |r| == |s|
    decreases |s|
  {
    if |s| == 0 then [] else Insert(s[|s| - 1], SortByMinutes(s[..|s| - 1]))
  }

  lemma WithMinutesSnoc(s: seq<Arrival>, x: Arrival, m: int)
    ensures WithMinutes(s + [x], m) == WithMinutes(s, m) + (if x.minutes == m then [x] else [])
  {
    assert (s + [x])[..|s|] == s;
  }

  lemma {:induction false} WithMinutesAppend(a: seq<Arrival>, b: seq<Arrival>, m: int)
    ensures WithMinutes(a + b, m) == WithMinutes(a, m) + WithMinutes(b, m)
    decreases |b|
  {
    if |b| > 0 {
      var b' := b[..|b| - 1];
      var x := b[|b| - 1];
      assert b == b' + [x];
      assert a + b == (a + b') + [x];
      WithMinutesAppend(a, b', m);
      WithMinutesSnoc(a + b', x, m);
      WithMinutesSnoc(b', x, m);
    } else {
      assert a + b == a;
    }
  }

  lemma {:induction false} InsertPermutes(x: Arrival, s: seq<Arrival>)
    ensures multiset(Insert(x, s)) == multiset(s) + multiset{x}
    decreases |s|
  {
    if |s| > 0 && s[|s| - 1].minutes > x.minutes {
      var s' := s[..|s| - 1];
      InsertPermutes(x, s');
      assert s == s' + [s[|s| - 1]];
    }
  }

  lemma {:induction false} InsertKeepsSorted(x: Arrival, s: seq<Arrival>)
    requires SortedByMinutes(s)
    ensures SortedByMinutes(Insert(x, s))
    decreases |s|
  {
    if |s| > 0 && s[|s| - 1].minutes > x.minutes {
      var s' := s[..|s| - 1];
      var y := s[|s| - 1];
      InsertKeepsSorted(x, s');
      InsertPermutes(x, s');
      var r := Insert(x, s');
      forall i | 0 <= i < |r| ensures r[i].minutes <= y.minutes {
        assert r[i] in multiset(r);
        if r[i] != x {
          assert r[i] in multiset(s');
          var k :| 0 <= k < |s'| && s'[k] == r[i];
        }
      }
    }
  }

  /** Inserting `x` appends it to the records that share its minutes. */
  lemma {:induction false} InsertKeepsOrder(x: Arrival, s: seq<Arrival>, m: int)
    ensures WithMinutes(Insert(x, s), m) == WithMinutes(s, m) + (if x.minutes == m then [x] else [])
    decreases |s|
  {
    if |s| == 0 {
      WithMinutesSnoc([], x, m);
      assert [x] == [] + [x];
    } else if s[|s| - 1].minutes <= x.minutes {
      WithMinutesSnoc(s, x, m);
    } else {
      var s' := s[..|s| - 1];
      var y := s[|s| - 1];
      assert s == s' + [y];
      InsertKeepsOrder(x, s', m);
      WithMinutesSnoc(Insert(x, s'), y, m);
      WithMinutesSnoc(s', y, m);
    }
  }

  /** The sorted result is ordered by minutes. */
  lemma {:induction false} SortIsSorted(s: seq<Arrival>)
    ensures SortedByMinutes(SortByMinutes(s))
    decreases |s|
  {
    if |s| > 0 {
      SortIsSorted(s[..|s| - 1]);
      InsertKeepsSorted(s[|s| - 1], SortByMinutes(s[..|s| - 1]));
    }
  }

  /** The sorted result holds the same records, as many times each. */
  lemma {:induction false} SortPermutes(s: seq<Arrival>)
    ensures multiset(SortByMinutes(s)) == multiset(s)
    decreases |s|
  {
    if |s| > 0 {
      var s', x := s[..|s| - 1], s[|s| - 1];
      SortPermutes(s');
      InsertPermutes(x, SortByMinutes(s'));
      assert SortByMinutes(s) == Insert(x, SortByMinutes(s'));
      assert s == s' + [x];
      assert multiset(s) == multiset(s') + multiset{x};
    }
  }

  /** Stability: records with equal minutes keep their relative order. */
  lemma {:induction false} SortIsStable(s: seq<Arrival>, m: int)
    ensures WithMinutes(SortByMinutes(s), m) == WithMinutes(s, m)
    decreases |s|
  {
    if |s| > 0 {
      SortIsStable(s[..|s| - 1], m);
      InsertKeepsOrder(s[|s| - 1], SortByMinutes(s[..|s| - 1]), m);
    }
  }

  /** Sorting an already sorted list changes nothing. */
  lemma {:induction false} SortOfSorted(s: seq<Arrival>)
    requires SortedByMinutes(s)
    ensures SortByMinutes(s) == s
    decreases |s|
  {
    if |s| > 0 {
      var s' := s[..|s| - 1];
      assert SortedByMinutes(s');
      SortOfSorted(s');
      assert s == s' + [s[|s| - 1]];
    }
  }

  lemma {:induction false} WithMinutesMember(s: seq<Arrival>, i: nat)
    requires i < |s|
    ensures s[i] in WithMinutes(s, s[i].minutes)
    decreases |s|
  {
    if i < |s| - 1 {
      WithMinutesMember(s[..|s| - 1], i);
    }
  }

  lemma {:induction false} WithMinutesElements(s: seq<Arrival>, m: int, x: Arrival)
    requires x in WithMinutes(s, m)
    ensures x in s && x.minutes == m
    decreases |s|
  {
    var s' := s[..|s| - 1];
    if x in WithMinutes(s', m) {
      WithMinutesElements(s', m, x);
    }
  }

  /**
   * A sorted sequence that keeps every minute value's records in the order
   * of `s` is `SortByMinutes(s)`: so the model agrees with any stable sort.
   */
  lemma StableSortIsUnique(r: seq<Arrival>, s: seq<Arrival>)
    requires SortedByMinutes(r)
    requires forall m :: WithMinutes(r, m) == WithMinutes(s, m)
    ensures r == SortByMinutes(s)
  {
    var t := SortByMinutes(s);
    SortIsSorted(s);
    forall m ensures WithMinutes(r, m) == WithMinutes(t, m) {
      SortIsStable(s, m);
    }
    SortedAgree(r, t);
  }

  /** Two sorted sequences with the same records per minute value are equal. */
  lemma {:induction false} SortedAgree(a: seq<Arrival>, b: seq<Arrival>)
    requires SortedByMinutes(a) && SortedByMinutes(b)
    requires forall m :: WithMinutes(a, m) == WithMinutes(b, m)
    ensures a == b
    decreases |a| + |b|
  {
    if |a| == 0 || |b| == 0 {
      if |a| > 0 {
        WithMinutesMember(a, 0);
        assert false;
      } else if |b| > 0 {
        WithMinutesMember(b, 0);
        assert false;
      }
    } else {
      SameLast(a, b);
      var a', b' := a[..|a| - 1], b[..|b| - 1];
      DropLastAgrees(a, b, a', b');
      assert SortedByMinutes(a') && SortedByMinutes(b');
      SortedAgree(a', b');
      assert a == a' + [a[|a| - 1]] && b == b' + [b[|b| - 1]];
    }
  }

  lemma SameLast(a: seq<Arrival>, b: seq<Arrival>)
    requires |a| > 0 && |b| > 0
    requires SortedByMinutes(a) && SortedByMinutes(b)
    requires forall m :: WithMinutes(a, m) == WithMinutes(b, m)
    ensures a[|a| - 1] == b[|b| - 1]
  {
    var x, y := a[|a| - 1], b[|b| - 1];
    WithMinutesMember(a, |a| - 1);
    WithMinutesMember(b, |b| - 1);
    assert WithMinutes(a, x.minutes) == WithMinutes(b, x.minutes);
    assert WithMinutes(a, y.minutes) == WithMinutes(b, y.minutes);
    WithMinutesElements(b, x.minutes, x);
    WithMinutesElements(a, y.minutes, y);
    var i :| 0 <= i < |b| && b[i] == x;
    var j :| 0 <= j < |a| && a[j] == y;
    assert x.minutes == y.minutes;
    var w := WithMinutes(a, x.minutes);
    assert w == WithMinutes(a[..|a| - 1], x.minutes) + [x];
    assert WithMinutes(b, x.minutes) == WithMinutes(b[..|b| - 1], x.minutes) + [y];
    assert w[|w| - 1] == x && w[|w| - 1] == y;
  }

  lemma DropLastAgrees(a: seq<Arrival>, b: seq<Arrival>, a': seq<Arrival>, b': seq<Arrival>)
    requires |a| > 0 && |b| > 0 && a[|a| - 1] == b[|b| - 1]
    requires a' == a[..|a| - 1] && b' == b[..|b| - 1]
    requires forall m :: WithMinutes(a, m) == WithMinutes(b, m)
    ensures forall m :: WithMinutes(a', m) == WithMinutes(b', m)
  {
    var x := a[|a| - 1];
    forall m ensures WithMinutes(a', m) == WithMinutes(b', m) {
      var p, q := WithMinutes(a', m), WithMinutes(b', m);
      var tail := if x.minutes == m then [x] else [];
      assert WithMinutes(a, m) == p + tail;
      assert WithMinutes(b, m) == q + tail;
      assert p == (p + tail)[..|p|];
      assert q == (q + tail)[..|q|];
    }
  }
}
