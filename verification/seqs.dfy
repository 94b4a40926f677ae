// Sequence helpers: duplicate-free lists built the way the Python code builds
// them ("append if not already listed").

module Seqs {
  import opened Wrappers

  predicate NoDup<T(==)>(xs: seq<T>)
  {
    forall i, j :: 0 <= i < j < |xs| ==> xs[i] != xs[j]
  }

  lemma NoDupSnoc<T>(xs: seq<T>, x: T)
    requires NoDup(xs) && x !in xs
    ensures NoDup(xs + [x])
  {
  }

  /** `if x not in xs: xs.append(x)` */
  function AppendNew<T(==)>(xs: seq<T>, x: T): seq<T>
  {
    if x in xs then xs else xs + [x]
  }

  /** The elements of xs in order of first occurrence, each once. */
  function Dedup<T(==,!new)>(xs: seq<T>): (r: seq<T>)
    ensures NoDup(r)
    ensures forall x :: x in r <==> x in xs
    ensures |r| <= |xs|
  {
    if |xs| == 0 then []
    else
      var prev := Dedup(xs[..|xs| - 1]);
      assert forall x :: x in xs <==> x in xs[..|xs| - 1] || x == xs[|xs| - 1];
      AppendNew(prev, xs[|xs| - 1])
  }

  /** A list without duplicates is its own deduplication. */
  lemma {:induction false} DedupNoDup<T(!new)>(xs: seq<T>)
    requires NoDup(xs)
    ensures Dedup(xs) == xs
  {
    if |xs| > 0 {
      var init := xs[..|xs| - 1];
      assert NoDup(init);
      DedupNoDup(init);
      assert xs[|xs| - 1] !in init;
      assert init + [xs[|xs| - 1]] == xs;
    }
  }

  /** Deduplicating an extended list extends the deduplicated prefix. */
  lemma DedupSnoc<T(!new)>(xs: seq<T>, x: T)
    ensures Dedup(xs + [x]) == AppendNew(Dedup(xs), x)
  {
    assert (xs + [x])[..|xs + [x]| - 1] == xs;
  }

  /** Position of the first occurrence of x. */
  function IndexOf<T(==)>(xs: seq<T>, x: T): (k: nat)
    requires x in xs
    ensures k < |xs| && xs[k] == x
    ensures forall j :: 0 <= j < k ==> xs[j] != x
  {
    if xs[0] == x then 0
    else
      assert x in xs[1..] by {
        var m :| 0 <= m < |xs| && xs[m] == x;
        assert xs[1..][m - 1] == x;
      }
      1 + IndexOf(xs[1..], x)
  }

  /** Appending an element moves no earlier first occurrence. */
  lemma IndexOfSnoc<T>(xs: seq<T>, y: T, x: T)
    requires x in xs
    ensures x in xs + [y] && IndexOf(xs + [y], x) == IndexOf(xs, x)
  {
    var k1 := IndexOf(xs + [y], x);
    var k2 := IndexOf(xs, x);
    assert (xs + [y])[k2] == x;
    assert k1 <= k2;
    assert xs[k1] == (xs + [y])[k1];
  }

  /** Every element of ks occurs in xs, and ks lists them in the order of
    * their first occurrence in xs. */
  predicate InFirstSeenOrder<T(==)>(ks: seq<T>, xs: seq<T>)
  {
    (forall i :: 0 <= i < |ks| ==> ks[i] in xs)
    && forall a, b :: 0 <= a < b < |ks| ==> IndexOf(xs, ks[a]) < IndexOf(xs, ks[b])
  }

  /** An element met before all of ks can be put in front of them. */
  lemma InFirstSeenOrderCons<T>(k: T, ks: seq<T>, xs: seq<T>)
    requires k in xs && InFirstSeenOrder(ks, xs)
    requires forall i :: 0 <= i < |ks| ==> IndexOf(xs, k) < IndexOf(xs, ks[i])
    ensures InFirstSeenOrder([k] + ks, xs)
  {
    var r := [k] + ks;
    forall a, b | 0 <= a < b < |r|
      ensures IndexOf(xs, r[a]) < IndexOf(xs, r[b])
    {
      assert r[b] == ks[b - 1];
      if a > 0 {
        assert r[a] == ks[a - 1];
      }
    }
  }

  /** Appending to xs keeps ks in first-seen order. */
  lemma InFirstSeenOrderSnoc<T>(ks: seq<T>, xs: seq<T>, y: T)
    requires InFirstSeenOrder(ks, xs)
    ensures InFirstSeenOrder(ks, xs + [y])
  {
    forall i | 0 <= i < |ks|
      ensures ks[i] in xs + [y] && IndexOf(xs + [y], ks[i]) == IndexOf(xs, ks[i])
    {
      IndexOfSnoc(xs, y, ks[i]);
    }
  }

  /** An element new to xs, appended to both, goes last in first-seen order. */
  lemma InFirstSeenOrderSnocNew<T>(ks: seq<T>, xs: seq<T>, y: T)
    requires InFirstSeenOrder(ks, xs) && y !in xs
    ensures InFirstSeenOrder(ks + [y], xs + [y])
  {
    InFirstSeenOrderSnoc(ks, xs, y);
    var r := ks + [y];
    assert IndexOf(xs + [y], y) == |xs|;
    forall a, b | 0 <= a < b < |r|
      ensures IndexOf(xs + [y], r[a]) < IndexOf(xs + [y], r[b])
    {
      assert r[a] == ks[a];
      if b < |ks| {
        assert r[b] == ks[b];
      }
    }
  }

  /** Dedup lists the elements in the order they first appear. */
  lemma {:induction false} DedupFirstSeenOrder<T(!new)>(xs: seq<T>)
    ensures InFirstSeenOrder(Dedup(xs), xs)
  {
    if |xs| > 0 {
      var init := xs[..|xs| - 1];
      var x := xs[|xs| - 1];
      assert xs == init + [x];
      DedupFirstSeenOrder(init);
      DedupSnoc(init, x);
      InFirstSeenOrderSnoc(Dedup(init), init, x);
      if x !in init {
        InFirstSeenOrderSnocNew(Dedup(init), init, x);
      }
    }
  }

  /** A duplicate-free list has as many elements as its set of elements. */
  lemma {:induction false} NoDupCard<T>(xs: seq<T>)
    requires NoDup(xs)
    ensures |xs| == |set x | x in xs|
  {
    if |xs| > 0 {
      var init := xs[..|xs| - 1];
      var x := xs[|xs| - 1];
      assert NoDup(init);
      NoDupCard(init);
      assert x !in init;
      assert (set y | y in xs) == (set y | y in init) + {x} by {
        assert xs == init + [x];
      }
    }
  }

  /** Dedup keeps one copy of each distinct element. */
  lemma DedupCard<T(!new)>(xs: seq<T>)
    ensures |Dedup(xs)| == |set x | x in xs|
  {
    NoDupCard(Dedup(xs));
    assert (set x | x in Dedup(xs)) == (set x | x in xs);
  }

  /** Number of elements satisfying a test, counted left to right. */
  function CountTrue(bs: seq<bool>): (n: nat)
    ensures n <= |bs|
    ensures n == 0 <==> forall i :: 0 <= i < |bs| ==> !bs[i]
  {
    if |bs| == 0 then 0
    else
      var n := CountTrue(bs[..|bs| - 1]) + (if bs[|bs| - 1] then 1 else 0);
      assert forall i :: 0 <= i < |bs| - 1 ==> bs[..|bs| - 1][i] == bs[i];
      n
  }

  /** The count is the number of positions holding true. */
  lemma {:induction false} CountTrueCard(bs: seq<bool>)
    ensures CountTrue(bs) == |set i | 0 <= i < |bs| && bs[i]|
  {
    if |bs| > 0 {
      var n := |bs| - 1;
      var init := bs[..n];
      CountTrueCard(init);
      var s0 := set i | 0 <= i < |init| && init[i];
      var s := set i | 0 <= i < |bs| && bs[i];
      if bs[n] {
        assert s == s0 + {n};
        assert n !in s0;
      } else {
        assert s == s0;
      }
    }
  }

  /** The values f gives for the elements it accepts, in order. */
  function FilterMap<A, B>(xs: seq<A>, f: A -> Option<B>): seq<B>
  {
    if |xs| == 0 then []
    else (match f(xs[0]) case None => [] case Some(y) => [y]) + FilterMap(xs[1..], f)
  }

  /** Mapping a list in two parts maps each part. */
  lemma {:induction false} FilterMapAppend<A, B>(xs: seq<A>, ys: seq<A>, f: A -> Option<B>)
    ensures FilterMap(xs + ys, f) == FilterMap(xs, f) + FilterMap(ys, f)
    decreases |xs|
  {
    if |xs| > 0 {
      assert (xs + ys)[0] == xs[0];
      assert (xs + ys)[1..] == xs[1..] + ys;
      FilterMapAppend(xs[1..], ys, f);
    } else {
      assert xs + ys == ys;
    }
  }

  /** A value is kept exactly when some element maps to it; no more values
    * than elements. */
  lemma {:induction false} FilterMapSpec<A, B>(xs: seq<A>, f: A -> Option<B>, y: B)
    ensures |FilterMap(xs, f)| <= |xs|
    ensures y in FilterMap(xs, f) <==> exists i :: 0 <= i < |xs| && f(xs[i]) == Some(y)
    decreases |xs|
  {
    if |xs| > 0 {
      var tail := xs[1..];
      FilterMapSpec(tail, f, y);
      if exists i :: 0 <= i < |xs| && f(xs[i]) == Some(y) {
        var i :| 0 <= i < |xs| && f(xs[i]) == Some(y);
        if i > 0 {
          assert tail[i - 1] == xs[i];
        }
      }
      if exists i :: 0 <= i < |tail| && f(tail[i]) == Some(y) {
        var i :| 0 <= i < |tail| && f(tail[i]) == Some(y);
        assert xs[i + 1] == tail[i];
      }
    }
  }

  lemma PrefixOfPrefix<T>(xs: seq<T>, k: nat, m: nat)
    requires k <= m <= |xs|
    ensures xs[..m][..k] == xs[..k]
  {
  }

  lemma ConsAppend<T>(a: seq<T>, b: seq<T>)
    requires |a| > 0
    ensures (a + b)[0] == a[0] && (a + b)[1..] == a[1..] + b
  {
  }

  /** f applied to each element in order; the first failure is the result. */
  function MapResult<A, B>(xs: seq<A>, f: A -> Result<B>): Result<seq<B>>
  {
    if |xs| == 0 then Ok([])
    else
      match f(xs[0])
      case Err(e) => Err(e)
      case Ok(y) =>
        match MapResult(xs[1..], f)
        case Err(e) => Err(e)
        case Ok(ys) => Ok([y] + ys)
  }

  /** The mapping succeeds exactly when every element does, and then holds
    * each element's value in order. */
  lemma {:induction false} MapResultSpec<A, B>(xs: seq<A>, f: A -> Result<B>)
    ensures MapResult(xs, f).Ok? <==> forall i :: 0 <= i < |xs| ==> f(xs[i]).Ok?
    ensures MapResult(xs, f).Ok? ==>
      |MapResult(xs, f).value| == |xs|
      && forall i :: 0 <= i < |xs| ==> MapResult(xs, f).value[i] == f(xs[i]).value
    decreases |xs|
  {
    if |xs| > 0 {
      var tail := xs[1..];
      MapResultSpec(tail, f);
      assert forall i :: 1 <= i < |xs| ==> xs[i] == tail[i - 1];
      if f(xs[0]).Ok? && MapResult(tail, f).Ok? {
        var ys := [f(xs[0]).value] + MapResult(tail, f).value;
        assert MapResult(xs, f) == Ok(ys);
        assert forall i :: 1 <= i < |xs| ==> ys[i] == MapResult(tail, f).value[i - 1];
      }
    }
  }

  /** A failed mapping reports the error of the first element that fails. */
  lemma {:induction false} MapResultError<A, B>(xs: seq<A>, f: A -> Result<B>)
    requires MapResult(xs, f).Err?
    ensures exists i :: (0 <= i < |xs| && f(xs[i]) == Err(MapResult(xs, f).error)
      && forall j :: 0 <= j < i ==> f(xs[j]).Ok?)
    decreases |xs|
  {
    if f(xs[0]).Ok? {
      var tail := xs[1..];
      MapResultError(tail, f);
      var i :| 0 <= i < |tail| && f(tail[i]) == Err(MapResult(tail, f).error)
        && forall j :: 0 <= j < i ==> f(tail[j]).Ok?;
      assert xs[i + 1] == tail[i];
      assert forall j :: 1 <= j < i + 1 ==> xs[j] == tail[j - 1];
    } else {
      assert f(xs[0]) == Err(MapResult(xs, f).error);
    }
  }
}
