/** Sequence utilities shared by the board models: the `chunks`/`flatten`
    pair the Rust code uses to view a flat grid as rows, an insertion sort
    standing for `sort_unstable_by`, and the multiset facts that say a
    rearrangement neither creates nor drops elements. */
module Seqs {

  /** Concatenation of all rows, in order (`rows.into_iter().flatten()`). */
  function Flatten<T>(rows: seq<seq<T>>): seq<T>
  {
    if rows == [] then [] else rows[0] + Flatten(rows[1..])
  }

  lemma {:induction false} FlattenAppend<T>(a: seq<seq<T>>, b: seq<seq<T>>)
    ensures Flatten(a + b) == Flatten(a) + Flatten(b)
    decreases |a|
  {
    if a == [] {
      assert a + b == b;
    } else {
      assert (a + b)[1..] == a[1..] + b;
      FlattenAppend(a[1..], b);
    }
  }

  /** `slice.chunks(n)`: consecutive pieces of length `n`, the last one possibly shorter. */
  function Chunks<T>(s: seq<T>, n: nat): (rows: seq<seq<T>>)
    requires n > 0
    ensures Flatten(rows) == s
    ensures forall i :: 0 <= i < |rows| ==> 0 < |rows[i]| <= n
    decreases |s|
  {
    if s == [] then []
    else if |s| <= n then [s]
    else
      assert s == s[..n] + s[n..];
      [s[..n]] + Chunks(s[n..], n)
  }

  /** Every row has exactly `n` elements. */
  ghost predicate Uniform<T>(rows: seq<seq<T>>, n: nat)
  {
    forall i :: 0 <= i < |rows| ==> |rows[i]| == n
  }

  lemma {:induction false} ChunksOfSquare<T>(s: seq<T>, n: nat, k: nat)
    requires n > 0 && |s| == k * n
    ensures |Chunks(s, n)| == k && Uniform(Chunks(s, n), n)
    decreases k
  {
    if k == 0 {
      assert s == [];
    } else if k == 1 {
      assert Chunks(s, n) == [s];
    } else {
      var m: nat := k - 1;
      OneRowFewer(k, n);
      var rest := s[n..];
      ChunksOfSquare(rest, n, m);
      assert Chunks(s, n) == [s[..n]] + Chunks(rest, n);
    }
  }

  /** `k` rows of `n` are one row of `n` and `k - 1` rows more. */
  lemma OneRowFewer(k: nat, n: nat)
    requires k > 1
    ensures (k - 1) * n + n == k * n && (k - 1) * n >= n
  {
  }

  lemma {:induction false} FlattenUniformLength<T>(rows: seq<seq<T>>, n: nat)
    requires Uniform(rows, n)
    ensures |Flatten(rows)| == |rows| * n
    decreases |rows|
  {
    if rows != [] {
      FlattenUniformLength(rows[1..], n);
    }
  }

  /** Element-wise image of a sequence. */
  function Map<A, B>(s: seq<A>, f: A -> B): (r: seq<B>)
    ensures |r| == |s|
    ensures forall i :: 0 <= i < |s| ==> r[i] == f(s[i])
  {
    seq(|s|, i requires 0 <= i < |s| => f(s[i]))
  }

  lemma MapAppend<A, B>(a: seq<A>, b: seq<A>, f: A -> B)
    ensures Map(a + b, f) == Map(a, f) + Map(b, f)
  {
  }

  /** A position of a member. */
  lemma PositionOf<T>(s: seq<T>, x: T) returns (i: nat)
    requires x in s
    ensures i < |s| && s[i] == x
  {
    i :| i < |s| && s[i] == x;
  }

  /** No value occurs twice. */
  ghost predicate Distinct<T>(s: seq<T>)
  {
    forall i, j :: 0 <= i < j < |s| ==> s[i] != s[j]
  }

  /** Adjacent elements are ordered by `le` (what `windows(2).all(..)` checks). */
  predicate Sorted<T>(s: seq<T>, le: (T, T) -> bool)
  {
    forall i :: 0 <= i < |s| - 1 ==> le(s[i], s[i + 1])
  }

  ghost predicate Total<T(!new)>(le: (T, T) -> bool)
  {
    forall a, b :: le(a, b) || le(b, a)
  }

  /** Inserts `x` before the first element it is `le` to. */
  function Insert<T>(x: T, s: seq<T>, le: (T, T) -> bool): (r: seq<T>)
    ensures |r| == |s| + 1
    ensures multiset(r) == multiset(s) + multiset{x}
    ensures r[0] == x || (s != [] && r[0] == s[0])
  {
    if s == [] then [x]
    else if le(x, s[0]) then [x] + s
    else
      assert s == [s[0]] + s[1..];
      [s[0]] + Insert(x, s[1..], le)
  }

  /** The sort used for `sort_unstable_by`: a permutation of `s` sorted by `le`. */
  function InsertionSort<T>(s: seq<T>, le: (T, T) -> bool): (r: seq<T>)
    ensures |r| == |s|
    ensures multiset(r) == multiset(s)
  {
    if s == [] then []
    else
      assert s == [s[0]] + s[1..];
      Insert(s[0], InsertionSort(s[1..], le), le)
  }

  lemma {:induction false} InsertSorted<T(!new)>(x: T, s: seq<T>, le: (T, T) -> bool)
    requires Total(le) && Sorted(s, le)
    ensures Sorted(Insert(x, s, le), le)
    decreases |s|
  {
    if s != [] && !le(x, s[0]) {
      assert le(s[0], x);
      InsertSorted(x, s[1..], le);
      var t := Insert(x, s[1..], le);
      assert Insert(x, s, le) == [s[0]] + t;
      assert s[1..] != [] ==> le(s[0], s[1]);
    }
  }

  lemma {:induction false} InsertionSortSorted<T(!new)>(s: seq<T>, le: (T, T) -> bool)
    requires Total(le)
    ensures Sorted(InsertionSort(s, le), le)
    decreases |s|
  {
    if s != [] {
      InsertionSortSorted(s[1..], le);
      InsertSorted(s[0], InsertionSort(s[1..], le), le);
    }
  }

  /** Sorting commutes with a map that the two orders agree on. */
  lemma {:induction false} InsertionSortMap<A, B>(s: seq<A>, f: A -> B, leA: (A, A) -> bool, leB: (B, B) -> bool)
    requires forall a, b :: leA(a, b) == leB(f(a), f(b))
    ensures Map(InsertionSort(s, leA), f) == InsertionSort(Map(s, f), leB)
    decreases |s|
  {
    if s != [] {
      assert Map(s, f)[1..] == Map(s[1..], f);
      InsertionSortMap(s[1..], f, leA, leB);
      InsertMap(s[0], InsertionSort(s[1..], leA), f, leA, leB);
    }
  }

  lemma {:induction false} InsertMap<A, B>(x: A, s: seq<A>, f: A -> B, leA: (A, A) -> bool, leB: (B, B) -> bool)
    requires forall a, b :: leA(a, b) == leB(f(a), f(b))
    ensures Map(Insert(x, s, leA), f) == Insert(f(x), Map(s, f), leB)
    decreases |s|
  {
    if s != [] {
      var ms := Map(s, f);
      assert ms[0] == f(s[0]) && ms[1..] == Map(s[1..], f);
      if !leA(x, s[0]) {
        var t := Insert(x, s[1..], leA);
        assert Insert(x, s, leA) == [s[0]] + t;
        assert Insert(f(x), ms, leB) == [ms[0]] + Insert(f(x), ms[1..], leB);
        InsertMap(x, s[1..], f, leA, leB);
        MapAppend([s[0]], t, f);
      } else {
        assert Insert(x, s, leA) == [x] + s;
        assert Insert(f(x), ms, leB) == [f(x)] + ms;
        MapAppend([x], s, f);
      }
    }
  }

  /** Facts about taking the occurrence at `i` out of a sequence. */
  lemma RemoveAt<T>(b: seq<T>, i: nat)
    requires i < |b|
    ensures b == b[..i] + [b[i]] + b[i + 1..]
    ensures multiset(b) == multiset(b[..i] + b[i + 1..]) + multiset{b[i]}
  {
    assert b == b[..i] + [b[i]] + b[i + 1..];
  }

  /** The concatenation around row `i`. */
  lemma FlattenAround<T>(b: seq<seq<T>>, i: nat)
    requires i < |b|
    ensures Flatten(b) == Flatten(b[..i]) + (b[i] + Flatten(b[i + 1..]))
    ensures Flatten(b[..i] + b[i + 1..]) == Flatten(b[..i]) + Flatten(b[i + 1..])
  {
    var u, v, x := b[..i], b[i + 1..], b[i];
    assert b == u + ([x] + v);
    FlattenAppend(u, [x] + v);
    FlattenAppend([x], v);
    assert Flatten([x]) == x;
    FlattenAppend(u, v);
  }

  /** Taking row `i` out of the concatenation takes its elements out. */
  lemma FlattenRemove<T>(b: seq<seq<T>>, i: nat)
    requires i < |b|
    ensures multiset(Flatten(b)) == multiset(b[i]) + multiset(Flatten(b[..i] + b[i + 1..]))
  {
    FlattenAround(b, i);
    var fu, fv, x := Flatten(b[..i]), Flatten(b[i + 1..]), b[i];
    assert multiset(fu + (x + fv)) == multiset(fu) + multiset(x) + multiset(fv);
    assert multiset(fu + fv) == multiset(fu) + multiset(fv);
  }

  /** Rearranging rows rearranges their concatenation. */
  lemma {:induction false} FlattenPermutation<T>(a: seq<seq<T>>, b: seq<seq<T>>)
    requires multiset(a) == multiset(b)
    ensures multiset(Flatten(a)) == multiset(Flatten(b))
    decreases |a|
  {
    if a == [] {
      assert |b| == |multiset(b)| == 0;
    } else {
      var x := a[0];
      assert x in multiset(b);
      var i := PositionOf(b, x);
      RemoveAt(b, i);
      var rest := b[..i] + b[i + 1..];
      assert a == [x] + a[1..];
      assert multiset(a[1..]) == multiset(a) - multiset{x};
      assert multiset(rest) == multiset(b) - multiset{x};
      FlattenPermutation(a[1..], rest);
      FlattenRemove(b, i);
      assert Flatten(a) == x + Flatten(a[1..]);
    }
  }

  /** Taking element `i` out of a sequence takes its image out of the mapped sequence. */
  lemma MapRemove<A, B>(b: seq<A>, i: nat, f: A -> B)
    requires i < |b|
    ensures multiset(Map(b, f)) == multiset{f(b[i])} + multiset(Map(b[..i] + b[i + 1..], f))
  {
    var u, v := b[..i], b[i + 1..];
    var w := [b[i]] + v;
    assert b == u + w;
    var mu, mv := Map(u, f), Map(v, f);
    MapAppend(u, w, f);
    MapAppend([b[i]], v, f);
    MapAppend(u, v, f);
    assert Map([b[i]], f) == [f(b[i])];
    assert Map(b, f) == mu + ([f(b[i])] + mv);
  }

  /** Rearranging a sequence rearranges its image under `f`. */
  lemma {:induction false} MapPermutation<A, B>(a: seq<A>, b: seq<A>, f: A -> B)
    requires multiset(a) == multiset(b)
    ensures multiset(Map(a, f)) == multiset(Map(b, f))
    decreases |a|
  {
    if a == [] {
      assert |b| == |multiset(b)| == 0;
    } else {
      var x := a[0];
      assert x in multiset(b);
      var i := PositionOf(b, x);
      RemoveAt(b, i);
      var rest := b[..i] + b[i + 1..];
      assert a == [x] + a[1..];
      assert multiset(a[1..]) == multiset(a) - multiset{x};
      assert multiset(rest) == multiset(b) - multiset{x};
      MapPermutation(a[1..], rest, f);
      MapRemove(b, i, f);
      MapRemove(a, 0, f);
      assert a[..0] + a[1..] == a[1..];
    }
  }

  /** A value occurring at two positions occurs at least twice. */
  lemma TwoOccurrences<T>(s: seq<T>, i: nat, j: nat)
    requires i < j < |s| && s[i] == s[j]
    ensures multiset(s)[s[i]] >= 2
  {
    assert s == s[..j] + [s[j]] + s[j + 1..];
    assert s[..j] == s[..i] + [s[i]] + s[i + 1..j];
    assert multiset(s[..j])[s[i]] >= 1;
  }

  /** Distinctness only depends on the multiset of a sequence. */
  lemma DistinctPermutation<T>(a: seq<T>, b: seq<T>)
    requires multiset(a) == multiset(b) && Distinct(b)
    ensures Distinct(a)
  {
    forall i, j | 0 <= i < j < |a|
      ensures a[i] != a[j]
    {
      if a[i] == a[j] {
        TwoOccurrences(a, i, j);
        DistinctCountsOne(b, a[i]);
        assert false;
      }
    }
  }

  lemma {:induction false} DistinctCountsOne<T>(s: seq<T>, x: T)
    requires Distinct(s)
    ensures multiset(s)[x] <= 1
    decreases |s|
  {
    if s != [] {
      assert s == [s[0]] + s[1..];
      DistinctCountsOne(s[1..], x);
      if s[0] == x {
        assert x !in s[1..];
      }
    }
  }
}
