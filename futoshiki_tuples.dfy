/** The all-different table of the second Futoshiki model: every ordering
    of 1..n, built level by level by inserting the next value at every
    position of every shorter ordering. */
module FutoshikiTuples {
  import opened Csp

  /** The values 1..n in increasing order: `range(1, n + 1)`. */
  function OneToN(n: nat): (r: seq<int>)
    ensures |r| == n
    ensures forall k | 0 <= k < n :: r[k] == k + 1
  {
    if n == 0 then [] else OneToN(n - 1) + [n]
  }

  /** `t` orders the values 1..k, each exactly once. */
  predicate IsPerm(t: seq<int>, k: nat)
  {
    multiset(t) == multiset(OneToN(k))
  }

  /** `list.insert(i, x)` on a copy of `t`. */
  function Insert(t: seq<int>, i: nat, x: int): (r: seq<int>)
    requires i <= |t|
    ensures |r| == |t| + 1 && r[i] == x
  {
    t[..i] + [x] + t[i..]
  }

  /** `x` inserted at each position of `t`, from the front to the back. */
  function Inserts(t: seq<int>, x: int): (r: seq<seq<int>>)
    ensures |r| == |t| + 1
    ensures forall i | 0 <= i < |r| :: r[i] == Insert(t, i, x)
  {
    seq(|t| + 1, i requires 0 <= i <= |t| => Insert(t, i, x))
  }

  /** One level of the recursion: the insertions of `x` into each tuple of
      `ts` in turn. */
  function InsertAll(ts: seq<seq<int>>, x: int): (r: seq<seq<int>>)
  {
    if ts == [] then [] else InsertAll(ts[..|ts| - 1], x) + Inserts(ts[|ts| - 1], x)
  }

  /** The table `futoshiki_model_2_tuples(k)` returns, in its order. */
  function Perms(k: nat): seq<seq<int>>
    requires k >= 1
  {
    if k == 1 then [[1]] else InsertAll(Perms(k - 1), k)
  }

  function Fact(n: nat): (r: nat)
    ensures r >= 1
  {
    if n == 0 then 1 else n * Fact(n - 1)
  }

  // ---------------------------------------------------------------------
  // One level of insertion

  /** Every insertion of `x` into a tuple of `ts` is on the next level. */
  lemma {:induction false} InsertAllHas(ts: seq<seq<int>>, x: int, s: seq<int>, i: nat)
    requires s in ts && i <= |s|
    ensures Insert(s, i, x) in InsertAll(ts, x)
  {
    var init, last := ts[..|ts| - 1], ts[|ts| - 1];
    assert ts == init + [last];
    if s == last {
      assert Inserts(last, x)[i] == Insert(s, i, x);
    } else {
      InsertAllHas(init, x, s, i);
    }
  }

  /** Every tuple on the next level is an insertion of `x` into a tuple of
      `ts`; `j` and `i` say which tuple and where. */
  lemma {:induction false} InsertAllFrom(ts: seq<seq<int>>, x: int, t: seq<int>) returns (j: nat, i: nat)
    requires t in InsertAll(ts, x)
    ensures j < |ts| && i <= |ts[j]| && t == Insert(ts[j], i, x)
  {
    var init, last := ts[..|ts| - 1], ts[|ts| - 1];
    if t in InsertAll(init, x) {
      j, i := InsertAllFrom(init, x, t);
      assert ts[j] == init[j];
    } else {
      var b := Inserts(last, x);
      assert t in b;
      var k :| 0 <= k < |b| && b[k] == t;
      j, i := |ts| - 1, k;
    }
  }

  /** A level has m + 1 tuples for each tuple of length m below it. */
  lemma {:induction false} InsertAllCount(ts: seq<seq<int>>, x: int, m: nat)
    requires forall j | 0 <= j < |ts| :: |ts[j]| == m
    ensures |InsertAll(ts, x)| == |ts| * (m + 1)
  {
    if ts != [] {
      var init := ts[..|ts| - 1];
      InsertAllCount(init, x, m);
      assert |InsertAll(ts, x)| == |init| * (m + 1) + (m + 1);
      assert |init| * (m + 1) + (m + 1) == (|init| + 1) * (m + 1);
    }
  }

  /** Inserting a value the tuple lacks loses nothing: the position and the
      tuple can both be read back. */
  lemma InsertInjective(s: seq<int>, i: nat, s': seq<int>, i': nat, x: int)
    requires i <= |s| && i' <= |s'| && x !in s && x !in s'
    requires Insert(s, i, x) == Insert(s', i', x)
    ensures i == i' && s == s'
  {
    var t := Insert(s, i, x);
    if i < i' {
      assert false;
    } else if i' < i {
      assert false;
    }
    assert s == t[..i] + t[i + 1..];
  }

  /** A level built from different tuples that all lack `x` has no repeats. */
  lemma {:induction false} InsertAllDistinct(ts: seq<seq<int>>, x: int)
    requires Distinct(ts)
    requires forall j | 0 <= j < |ts| :: x !in ts[j]
    ensures Distinct(InsertAll(ts, x))
  {
    if ts != [] {
      var init, last := ts[..|ts| - 1], ts[|ts| - 1];
      InsertAllDistinct(init, x);
      var a, b := InsertAll(init, x), Inserts(last, x);
      forall i, j | 0 <= i < j < |b|
        ensures b[i] != b[j]
      {
        if b[i] == b[j] {
          assert false;
        }
      }
      forall i, j | 0 <= i < |a| && 0 <= j < |b|
        ensures a[i] != b[j]
      {
        var m, k := InsertAllFrom(init, x, a[i]);
        if a[i] == b[j] {
          InsertInjective(init[m], k, last, j, x);
          assert false;
        }
      }
      assert InsertAll(ts, x) == a + b;
    }
  }

  // ---------------------------------------------------------------------
  // The permutation table

  lemma MultisetInsert(s: seq<int>, i: nat, x: int)
    requires i <= |s|
    ensures multiset(Insert(s, i, x)) == multiset(s) + multiset{x}
  {
    assert s == s[..i] + s[i..];
  }

  /** 1..k is 1..k-1 followed by k. */
  lemma OneToNSnoc(k: nat)
    requires k >= 1
    ensures multiset(OneToN(k)) == multiset(OneToN(k - 1)) + multiset{k}
    ensures k !in multiset(OneToN(k - 1))
  {
    assert OneToN(k) == OneToN(k - 1) + [k];
  }

  /** Every tuple of the table orders 1..k. */
  lemma {:induction false} PermsSound(k: nat, t: seq<int>)
    requires k >= 1 && t in Perms(k)
    ensures IsPerm(t, k) && |t| == k
  {
    if k > 1 {
      var j, i := InsertAllFrom(Perms(k - 1), k, t);
      var s := Perms(k - 1)[j];
      PermsSound(k - 1, s);
      MultisetInsert(s, i, k);
      OneToNSnoc(k);
    }
  }

  lemma MultisetCancel(a: multiset<int>, b: multiset<int>, x: int)
    requires a + multiset{x} == b + multiset{x}
    ensures a == b
  {
    assert a == (a + multiset{x}) - multiset{x};
    assert b == (b + multiset{x}) - multiset{x};
  }

  /** Removing the largest value from an ordering of 1..k leaves an
      ordering of 1..k-1 that it was inserted into. */
  lemma RemoveLargest(k: nat, t: seq<int>) returns (s: seq<int>, j: nat)
    requires k > 1 && IsPerm(t, k)
    ensures j <= |s| && t == Insert(s, j, k) && IsPerm(s, k - 1)
  {
    j := PositionOf(t, k, k);
    PermDistinct(t, k);
    s := DropAt(t, j);
    MultisetInsert(s, j, k);
    OneToNSnoc(k);
    MultisetCancel(multiset(s), multiset(OneToN(k - 1)), k);
  }

  /** Every ordering of 1..k is in the table. */
  lemma {:induction false} PermsComplete(k: nat, t: seq<int>)
    requires k >= 1 && IsPerm(t, k)
    ensures t in Perms(k)
  {
    if k == 1 {
      assert |multiset(t)| == 1;
      assert t[0] in multiset(OneToN(1));
      assert t == [1];
    } else {
      var s, j := RemoveLargest(k, t);
      PermsComplete(k - 1, s);
      PermsSound(k - 1, s);
      InsertAllHas(Perms(k - 1), k, s, j);
    }
  }

  /** The table lists each ordering once. */
  lemma {:induction false} PermsDistinct(k: nat)
    requires k >= 1
    ensures Distinct(Perms(k))
  {
    if k > 1 {
      PermsDistinct(k - 1);
      OneToNSnoc(k);
      var below := Perms(k - 1);
      forall j | 0 <= j < |below|
        ensures k !in below[j]
      {
        PermsSound(k - 1, below[j]);
        assert k !in multiset(below[j]);
      }
      InsertAllDistinct(below, k);
    }
  }

  /** The table has k! tuples. */
  lemma {:induction false} PermsCount(k: nat)
    requires k >= 1
    ensures |Perms(k)| == Fact(k)
  {
    if k > 1 {
      PermsCount(k - 1);
      var below := Perms(k - 1);
      forall j | 0 <= j < |below|
        ensures |below[j]| == k - 1
      {
        PermsSound(k - 1, below[j]);
      }
      InsertAllCount(below, k, k - 1);
      assert Perms(k) == InsertAll(below, k);
      assert |below| == Fact(k - 1);
      assert Fact(k) == k * Fact(k - 1);
      assert |Perms(k)| == Fact(k - 1) * k;
    }
  }

  /** The table is exactly the set of orderings of 1..k, listed once each,
      k! of them. */
  lemma PermsTable(k: nat)
    requires k >= 1
    ensures forall t :: t in Perms(k) <==> IsPerm(t, k)
    ensures Distinct(Perms(k)) && |Perms(k)| == Fact(k)
  {
    forall t
      ensures t in Perms(k) <==> IsPerm(t, k)
    {
      if t in Perms(k) {
        PermsSound(k, t);
      }
      if IsPerm(t, k) {
        PermsComplete(k, t);
      }
    }
    PermsDistinct(k);
    PermsCount(k);
  }

  /** 1..k holds v once when 1 <= v <= k, and never otherwise. */
  lemma {:induction false} OneToNCount(k: nat, v: int)
    ensures 1 <= v <= k ==> multiset(OneToN(k))[v] == 1
    ensures !(1 <= v <= k) ==> multiset(OneToN(k))[v] == 0
  {
    if k > 0 {
      OneToNCount(k - 1, v);
      var below := OneToN(k - 1);
      assert OneToN(k) == below + [k];
      var mb := multiset(below);
      assert multiset(OneToN(k)) == mb + multiset{k};
      if v == k {
        assert (mb + multiset{k})[v] == mb[v] + 1;
      } else {
        assert (mb + multiset{k})[v] == mb[v];
      }
    }
  }

  /** Every value of 1..k has a position in an ordering of 1..k. */
  lemma PositionOf(t: seq<int>, k: nat, v: int) returns (m: nat)
    requires IsPerm(t, k) && 1 <= v <= k
    ensures m < |t| && t[m] == v
  {
    OneToNCount(k, v);
    assert v in multiset(t);
    m :| 0 <= m < |t| && t[m] == v;
  }

  /** An ordering of 1..k has k pairwise different values, each in 1..k. */
  lemma PermDistinct(t: seq<int>, k: nat)
    requires IsPerm(t, k)
    ensures |t| == k && Distinct(t)
    ensures forall m | 0 <= m < |t| :: 1 <= t[m] <= k
  {
    assert |multiset(t)| == |multiset(OneToN(k))|;
    forall m | 0 <= m < |t|
      ensures 1 <= t[m] <= k
    {
      OneToNCount(k, t[m]);
      assert t[m] in multiset(t);
    }
    forall i, j | 0 <= i < j < |t|
      ensures t[i] != t[j]
    {
      OneToNCount(k, t[i]);
      assert t == t[..j] + [t[j]] + t[j + 1..];
      assert t[i] in multiset(t[..j]) by {
        assert t[..j][i] == t[i];
      }
    }
  }

  /** `t` without its element at `j`. */
  lemma DropAt(t: seq<int>, j: nat) returns (s: seq<int>)
    requires j < |t| && Distinct(t)
    ensures |s| == |t| - 1 && t == Insert(s, j, t[j]) && Distinct(s)
    ensures forall m | 0 <= m < |s| :: s[m] == if m < j then t[m] else t[m + 1]
  {
    s := t[..j] + t[j + 1..];
    assert t == Insert(s, j, t[j]);
  }

  /** k pairwise different values from 1..k include k. */
  lemma {:induction false} LargestPresent(t: seq<int>, k: nat)
    requires k >= 1 && |t| == k && Distinct(t)
    requires forall m | 0 <= m < |t| :: 1 <= t[m] <= k
    ensures k in t
    decreases k, 0
  {
    if k !in t {
      var s := t[..k - 1];
      DistinctRangeIsPerm(s, k - 1);
      var m := PositionOf(s, k - 1, t[k - 1]);
      assert false;
    }
  }

  /** Taking k out of k pairwise different values from 1..k leaves k - 1
      pairwise different values from 1..k-1. */
  lemma {:induction false} DropLargest(t: seq<int>, k: nat) returns (s: seq<int>, j: nat)
    requires k >= 1 && |t| == k && Distinct(t)
    requires forall m | 0 <= m < |t| :: 1 <= t[m] <= k
    ensures j <= |s| && t == Insert(s, j, k)
    ensures |s| == k - 1 && Distinct(s) && forall m | 0 <= m < |s| :: 1 <= s[m] <= k - 1
    decreases k, 1
  {
    LargestPresent(t, k);
    j :| 0 <= j < |t| && t[j] == k;
    s := DropAt(t, j);
    forall m | 0 <= m < |s|
      ensures 1 <= s[m] <= k - 1
    {
      if m < j {
        assert t[m] != t[j];
      } else {
        assert t[m + 1] != t[j];
      }
    }
  }

  /** Pigeonhole: k pairwise different values from 1..k are an ordering of
      1..k. */
  lemma {:induction false} DistinctRangeIsPerm(t: seq<int>, k: nat)
    requires |t| == k && Distinct(t)
    requires forall m | 0 <= m < |t| :: 1 <= t[m] <= k
    ensures IsPerm(t, k)
    decreases k, 2
  {
    if k == 0 {
      assert t == [];
    } else {
      var s, j := DropLargest(t, k);
      DistinctRangeIsPerm(s, k - 1);
      MultisetInsert(s, j, k);
      OneToNSnoc(k);
    }
  }

  // ---------------------------------------------------------------------
  // The recursive builder

  /** Builds one level from the level below it: for each tuple in order,
      a copy with `level` inserted at each position from front to back. */
  method NextLevel(tupleList: seq<seq<int>>, level: int) returns (newList: seq<seq<int>>)
    ensures newList == InsertAll(tupleList, level)
  {
    newList := [];
    for idx := 0 to |tupleList|
      invariant newList == InsertAll(tupleList[..idx], level)
    {
      var item := tupleList[idx];
      assert tupleList[..idx + 1][..idx] == tupleList[..idx];
      for index := 0 to |item| + 1
        invariant newList == InsertAll(tupleList[..idx], level) + Inserts(item, level)[..index]
      {
        var newItem := item[..index] + [level] + item[index..];
        newList := newList + [newItem];
        assert Inserts(item, level)[..index + 1] == Inserts(item, level)[..index] + [newItem];
      }
    }
    assert tupleList[..|tupleList|] == tupleList;
  }

  /** The final level, each list turned into a tuple. */
  method CopyTuples(list: seq<seq<int>>) returns (r: seq<seq<int>>)
    ensures r == list
  {
    r := [];
    for j := 0 to |list|
      invariant r == list[..j]
    {
      r := r + [list[j]];
    }
  }

  /** Every level is non-empty and its tuples have length k. */
  lemma PermsShape(k: nat)
    requires k >= 1
    ensures |Perms(k)| >= 1 && |Perms(k)[0]| == k
  {
    PermsCount(k);
    PermsSound(k, Perms(k)[0]);
  }

  lemma PermsNext(k: nat)
    requires k >= 1
    ensures Perms(k + 1) == InsertAll(Perms(k), k + 1)
  {
  }

  /** `futoshiki_model_2_tuples(n, tuple_list)`: with no list it starts from
      [[1]]; once the tuples have length n it returns them, else it builds
      the next level and recurses. The tuples of `tupleList` must be the
      orderings of 1..k for some k <= n: from a level above n, and for
      n = 0, the source keeps recursing on ever longer lists and fails with
      RecursionError or MemoryError instead of returning. */
  method Model2Tuples(n: nat, tupleList: Option<seq<seq<int>>>, ghost k: nat) returns (r: seq<seq<int>>)
    requires 1 <= k <= n
    requires tupleList.None? ==> k == 1
    requires tupleList.Some? ==> tupleList.value == Perms(k)
    ensures r == Perms(n)
    decreases n - k
  {
    var list;
    if tupleList.None? {
      list := [[1]];
      assert list == Perms(1);
    } else {
      list := tupleList.value;
    }
    PermsShape(k);
    if |list[0]| == n {
      r := CopyTuples(list);
      return;
    }
    var level := |list[0]| + 1;
    assert level == k + 1;
    var newList := NextLevel(list, level);
    PermsNext(k);
    r := Model2Tuples(n, Some(newList), k + 1);
  }
}
