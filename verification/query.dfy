/** Row selection over a keyed table, the way the ORM's `filter(...)` reads a
    table whose primary keys are handed out by an auto-increment counter. */
module Query {

  /** Strictly ascending, hence free of repetitions. */
  ghost predicate Increasing(keys: seq<nat>) {
    forall i, j :: 0 <= i < j < |keys| ==> keys[i] < keys[j]
  }

  /** The keys `base`, `base + 1`, ..., `base + n - 1`. */
  function Interval(base: nat, n: nat): (keys: seq<nat>)
    ensures |keys| == n
    ensures forall i :: 0 <= i < n ==> keys[i] == base + i
  {
    seq(n, i requires 0 <= i < n => base + i)
  }

  lemma IntervalMembers(base: nat, n: nat)
    ensures Increasing(Interval(base, n))
    ensures forall k :: k in Interval(base, n) <==> base <= k < base + n
  {
    var keys := Interval(base, n);
    forall k | base <= k < base + n
      ensures k in keys
    {
      assert keys[k - base] == k;
    }
  }

  /** The keys below `bound` whose row satisfies `p`, in ascending order. */
  function Select<V>(table: map<nat, V>, bound: nat, p: V -> bool): (keys: seq<nat>)
    ensures Increasing(keys)
    ensures forall k :: k in keys <==> k in table && k < bound && p(table[k])
    decreases bound
  {
    if bound == 0 then []
    else
      var k := bound - 1;
      var below := Select(table, k, p);
      if k in table && p(table[k]) then
        assert forall i :: 0 <= i < |below| ==> below[i] in below;
        below + [k]
      else below
  }

  /** An ascending sequence is determined by the keys it holds. */
  lemma {:induction false} IncreasingUnique(a: seq<nat>, b: seq<nat>)
    requires Increasing(a) && Increasing(b)
    requires forall k :: k in a <==> k in b
    ensures a == b
    decreases |a|
  {
    if a == [] {
      assert forall i :: 0 <= i < |b| ==> b[i] in b;
    } else {
      assert a[0] in b;
      assert b != [];
      assert b[0] in a;
      assert a[0] == b[0] by {
        var i :| 0 <= i < |b| && b[i] == a[0];
        var j :| 0 <= j < |a| && a[j] == b[0];
        assert b[0] <= b[i];
        assert a[0] <= a[j];
      }
      forall k
        ensures k in a[1..] <==> k in b[1..]
      {
        if k in a[1..] {
          var i :| 1 <= i < |a| && a[i] == k;
          assert k in b && k != b[0];
          var j :| 0 <= j < |b| && b[j] == k;
          assert j != 0;
          assert b[1..][j - 1] == k;
        }
        if k in b[1..] {
          var j :| 1 <= j < |b| && b[j] == k;
          assert k in a && k != a[0];
          var i :| 0 <= i < |a| && a[i] == k;
          assert i != 0;
          assert a[1..][i - 1] == k;
        }
      }
      IncreasingUnique(a[1..], b[1..]);
      assert a == [a[0]] + a[1..];
      assert b == [b[0]] + b[1..];
    }
  }

  /** Two selections agree when the rows they can see agree. */
  lemma SelectAgree<V>(t1: map<nat, V>, b1: nat, p1: V -> bool, t2: map<nat, V>, b2: nat, p2: V -> bool)
    requires forall k :: (k in t1 && k < b1 && p1(t1[k])) <==> (k in t2 && k < b2 && p2(t2[k]))
    ensures Select(t1, b1, p1) == Select(t2, b2, p2)
  {
    IncreasingUnique(Select(t1, b1, p1), Select(t2, b2, p2));
  }

  /** A selection whose matching keys form an interval is that interval. */
  lemma SelectIsInterval<V>(t: map<nat, V>, bound: nat, p: V -> bool, base: nat, n: nat)
    requires forall k :: (k in t && k < bound && p(t[k])) <==> base <= k < base + n
    ensures Select(t, bound, p) == Interval(base, n)
  {
    IntervalMembers(base, n);
    var sel := Select(t, bound, p);
    forall k
      ensures k in sel <==> k in Interval(base, n)
    {
    }
    IncreasingUnique(sel, Interval(base, n));
  }

  /** Writing a row at the bound and raising the bound past it appends its
      key when the row matches. */
  lemma SelectExtend<V>(t: map<nat, V>, bound: nat, p: V -> bool, v: V)
    ensures Select(t[bound := v], bound + 1, p) == Select(t, bound, p) + (if p(v) then [bound] else [])
  {
    SelectAgree(t[bound := v], bound, p, t, bound, p);
  }
}
