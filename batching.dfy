/** The shape of the batches the genome loader hands to the store: the first
    record on its own (the flush test `i % B == 0` fires at index 0), then
    groups of B records, then whatever is left over. Stated here as a plain
    grouping of the input, independent of the loop that produces it. */
module Batching {

  /** The batches concatenated in call order. */
  function Flatten<T>(bs: seq<seq<T>>): seq<T>
  {
    if bs == [] then [] else bs[0] + Flatten(bs[1..])
  }

  /** Consecutive groups of `n` items; the last group holds the 1..n items left. */
  function Chunks<T>(s: seq<T>, n: nat): seq<seq<T>>
    requires n >= 1
    decreases |s|
  {
    if s == [] then []
    else if |s| <= n then [s]
    else [s[..n]] + Chunks(s[n..], n)
  }

  /** The first item alone, then the rest in groups of `n`. Nothing is
      dropped, duplicated or reordered: the batches, concatenated in call
      order, are the input. */
  function Batches<T>(rs: seq<T>, n: nat): (bs: seq<seq<T>>)
    requires n >= 1
    ensures Flatten(bs) == rs
  {
    if rs == [] then []
    else
      ChunksFlatten(rs[1..], n);
      FlattenAppend([rs[..1]], Chunks(rs[1..], n));
      assert Flatten([rs[..1]]) == rs[..1] + Flatten([]);
      assert rs[..1] + rs[1..] == rs;
      [rs[..1]] + Chunks(rs[1..], n)
  }

  /** The batch size a (non-zero) configured size amounts to: Python's
      `i % b == 0` holds exactly when |b| divides i. */
  function Stride(b: int): (n: int)
    requires b != 0
    ensures n >= 1 && (n == b || n == -b)
  {
    if b < 0 then -b else b
  }

  // ---------------------------------------------------------------------
  // Properties of the batch shape.

  lemma {:induction false} FlattenAppend<T>(a: seq<seq<T>>, b: seq<seq<T>>)
    ensures Flatten(a + b) == Flatten(a) + Flatten(b)
  {
    if a == [] {
      assert a + b == b;
    } else {
      assert (a + b)[1..] == a[1..] + b;
      FlattenAppend(a[1..], b);
    }
  }

  lemma {:induction false} ChunksFlatten<T>(s: seq<T>, n: nat)
    requires n >= 1
    ensures Flatten(Chunks(s, n)) == s
    decreases |s|
  {
    if s == [] {
    } else if |s| <= n {
      assert Flatten([s]) == s + Flatten([]);
    } else {
      ChunksFlatten(s[n..], n);
      FlattenAppend([s[..n]], Chunks(s[n..], n));
      assert Flatten([s[..n]]) == s[..n] + Flatten([]);
      assert s[..n] + s[n..] == s;
    }
  }

  /** Every group is non-empty and at most `n` long, every group but the last
      is exactly `n` long, the last holds the remainder, and there are
      ceil(|s| / n) groups. */
  lemma {:induction false} ChunksShape<T>(s: seq<T>, n: nat)
    requires n >= 1
    ensures var cs := Chunks(s, n);
      && |cs| == (|s| + n - 1) / n
      && (forall k :: 0 <= k < |cs| ==> 1 <= |cs[k]| <= n)
      && (forall k :: 0 <= k < |cs| - 1 ==> |cs[k]| == n)
      && (s != [] ==> |cs[|cs| - 1]| == if |s| % n == 0 then n else |s| % n)
    decreases |s|
  {
    var cs := Chunks(s, n);
    if s == [] {
      DivModUnique(n - 1, n, 0, n - 1);
    } else if |s| <= n {
      DivModUnique(|s| + n - 1, n, 1, |s| - 1);
      if |s| < n {
        DivModUnique(|s|, n, 0, |s|);
      } else {
        DivModUnique(|s|, n, 1, 0);
      }
    } else {
      var rest := Chunks(s[n..], n);
      ChunksShape(s[n..], n);
      assert cs == [s[..n]] + rest;
      DivModStep(|s| + n - 1, n);
      DivModStep(|s|, n);
      forall k | 0 <= k < |cs|
        ensures 1 <= |cs[k]| <= n
        ensures k < |cs| - 1 ==> |cs[k]| == n
      {
        if k > 0 { assert cs[k] == rest[k - 1]; }
      }
    }
  }

  /** The shape of the loader's insert calls for `N` records and batch size
      `n`: none for no input; otherwise the first call carries the first
      record alone, every call is non-empty and at most `n` long, every call
      strictly between the first and the last carries exactly `n` records,
      and there are 1 + ceil((N - 1) / n) calls. */
  lemma BatchesShape<T>(rs: seq<T>, n: nat)
    requires n >= 1
    ensures var bs := Batches(rs, n);
      && (rs == [] <==> bs == [])
      && (rs != [] ==> bs[0] == [rs[0]] && |bs| == 1 + (|rs| - 1 + n - 1) / n)
      && (forall k :: 0 <= k < |bs| ==> 1 <= |bs[k]| <= n)
      && (forall k :: 1 <= k < |bs| - 1 ==> |bs[k]| == n)
  {
    var bs := Batches(rs, n);
    if rs != [] {
      var rest := Chunks(rs[1..], n);
      ChunksShape(rs[1..], n);
      assert bs == [rs[..1]] + rest;
      forall k | 1 <= k < |bs|
        ensures bs[k] == rest[k - 1]
      {
      }
    }
  }

  /** The last call, when it is not the first, holds the (N - 1) mod n records
      left over after the full batches, or a full batch when nothing is left
      over; it holds fewer than `n` records exactly when there is a remainder. */
  lemma BatchesLast<T>(rs: seq<T>, n: nat)
    requires n >= 1 && |rs| >= 2
    ensures var bs := Batches(rs, n);
      |bs| >= 2 && |bs[|bs| - 1]| == if (|rs| - 1) % n == 0 then n else (|rs| - 1) % n
  {
    var bs := Batches(rs, n);
    var rest := Chunks(rs[1..], n);
    ChunksShape(rs[1..], n);
    assert bs == [rs[..1]] + rest;
    assert bs[|bs| - 1] == rest[|rest| - 1];
  }

  /** With a batch size of one there is one call per record, in order. */
  lemma {:induction false} BatchesOfOne<T>(rs: seq<T>)
    ensures Batches(rs, 1) == seq(|rs|, k requires 0 <= k < |rs| => [rs[k]])
  {
    if rs != [] {
      UnitChunks(rs[1..]);
      var bs := Batches(rs, 1);
      assert bs == [rs[..1]] + Chunks(rs[1..], 1);
      forall k | 0 <= k < |rs|
        ensures bs[k] == [rs[k]]
      {
        if k > 0 { assert bs[k] == Chunks(rs[1..], 1)[k - 1]; }
      }
    }
  }

  lemma {:induction false} UnitChunks<T>(s: seq<T>)
    ensures Chunks(s, 1) == seq(|s|, k requires 0 <= k < |s| => [s[k]])
    decreases |s|
  {
    if s != [] {
      UnitChunks(s[1..]);
      var cs := Chunks(s, 1);
      if |s| == 1 {
        assert cs == [s];
      } else {
        assert cs == [s[..1]] + Chunks(s[1..], 1);
      }
      forall k | 0 <= k < |s|
        ensures cs[k] == [s[k]]
      {
        if k > 0 { assert cs[k] == Chunks(s[1..], 1)[k - 1]; }
      }
    }
  }

  /** Appending a group of at most `n` items to a whole number of groups adds
      exactly that group. */
  lemma {:induction false} ChunksExtend<T>(q: seq<T>, t: seq<T>, n: nat, k: nat)
    requires n >= 1 && |q| == k * n && 1 <= |t| <= n
    ensures Chunks(q + t, n) == Chunks(q, n) + [t]
    decreases k
  {
    if k == 0 {
      assert q + t == t;
    } else {
      assert |q| >= n;
      assert (q + t)[..n] == q[..n];
      assert (q + t)[n..] == q[n..] + t;
      assert |q[n..]| == (k - 1) * n;
      ChunksExtend(q[n..], t, n, k - 1);
      if |q| == n {
        assert q[n..] == [];
      }
    }
  }

  /** The loader's loop step: once the first record and `k` full batches have
      been flushed, flushing a further group of at most `n` records extends the
      batches by exactly that group. */
  lemma BatchesExtend<T>(p: seq<T>, t: seq<T>, n: nat, k: nat)
    requires n >= 1 && |p| == 1 + k * n && 1 <= |t| <= n
    ensures Batches(p + t, n) == Batches(p, n) + [t]
  {
    assert (p + t)[..1] == p[..1];
    assert (p + t)[1..] == p[1..] + t;
    ChunksExtend(p[1..], t, n, k);
  }

  /** The loader's first flush: the first record alone. */
  lemma FirstBatchStep<T>(rs: seq<T>, n: nat)
    requires n >= 1 && rs != []
    ensures Batches(rs[..1], n) == [[rs[0]]]
  {
    assert rs[..1][1..] == [];
    assert rs[..1][..1] == [rs[0]];
  }

  /** The loader's full-batch flush, stated on prefixes of the input. */
  lemma FullBatchStep<T>(rs: seq<T>, flushed: nat, full: nat, n: nat, upto: nat)
    requires n >= 1 && flushed == 1 + full * n && upto <= |rs| && upto == flushed + n
    ensures Batches(rs[..upto], n) == Batches(rs[..flushed], n) + [rs[flushed..upto]]
    ensures upto == 1 + (full + 1) * n
  {
    BatchesExtend(rs[..flushed], rs[flushed..upto], n, full);
    assert rs[..flushed] + rs[flushed..upto] == rs[..upto];
  }

  /** One step of the loader's loop after the first record: `flushed`
      records (the first and `full` full batches) have gone to the store and
      the record at index `i` has just joined the pending ones. The flush test
      fires exactly when the pending records make a full batch, and then the
      batches grow by exactly that batch. */
  lemma LoaderStep<T>(rs: seq<T>, b: int, full: nat, flushed: nat, i: nat)
    requires b != 0 && flushed == 1 + full * Stride(b) && flushed <= i < |rs| && i - flushed < Stride(b)
    ensures i % b == 0 <==> i + 1 - flushed == Stride(b)
    ensures i % b == 0 ==> && Batches(rs[..i + 1], Stride(b)) == Batches(rs[..flushed], Stride(b)) + [rs[flushed..i + 1]]
                           && i + 1 == 1 + (full + 1) * Stride(b)
  {
    assert i == full * Stride(b) + (i + 1 - flushed);
    FlushTest(b, full, i + 1 - flushed);
    if i % b == 0 {
      FullBatchStep(rs, flushed, full, Stride(b), i + 1);
    }
  }

  /** The loader's final flush: after the first record and `full` full
      batches, the 1..n-1 records still pending make the last batch. */
  lemma LoaderRemainder<T>(rs: seq<T>, n: nat, full: nat, flushed: nat)
    requires n >= 1 && flushed == 1 + full * n && flushed < |rs| && |rs| - flushed < n
    ensures Batches(rs, n) == Batches(rs[..flushed], n) + [rs[flushed..]]
  {
    BatchesExtend(rs[..flushed], rs[flushed..], n, full);
    assert rs[..flushed] + rs[flushed..] == rs;
  }

  // ---------------------------------------------------------------------
  // Division facts used by the loader's loop and by the count lemmas.

  /** Quotient and remainder are unique. */
  lemma DivModUnique(x: int, b: int, q: int, r: int)
    requires b != 0 && 0 <= r < Stride(b)
    requires x == q * b + r
    ensures x / b == q && x % b == r
  {
    var q', r' := x / b, x % b;
    assert x == q' * b + r';
    assert (q - q') * b == r' - r;
    MultipleOfDivisor(q - q', b);
  }

  /** A non-zero multiple of `b` is at least |b| away from zero. */
  lemma MultipleOfDivisor(d: int, b: int)
    requires b != 0
    ensures d != 0 ==> d * b >= Stride(b) || d * b <= -Stride(b)
  {
  }

  /** Stepping back by one divisor lowers the quotient by one and keeps the remainder. */
  lemma DivModStep(x: int, n: int)
    requires n >= 1 && x >= n
    ensures (x - n) / n == x / n - 1 && (x - n) % n == x % n
  {
    var q, r := x / n, x % n;
    assert x - n == (q - 1) * n + r;
    DivModUnique(x - n, n, q - 1, r);
  }

  /** In the loader's loop, the index of the record just appended is
      `k * |b| + r` with `1 <= r <= |b|` (k full batches after the first
      record, r records in the accumulator); the flush test fires exactly
      when the accumulator has reached |b| records. */
  lemma FlushTest(b: int, k: nat, r: int)
    requires b != 0 && 1 <= r <= Stride(b)
    ensures (k * Stride(b) + r) % b == 0 <==> r == Stride(b)
  {
    var n := Stride(b);
    if r == n {
      if b > 0 {
        DivModUnique(k * n + r, b, k + 1, 0);
      } else {
        var q: int := -(k + 1);
        assert k * n + r == q * b;
        DivModUnique(k * n + r, b, q, 0);
      }
    } else {
      if b > 0 {
        DivModUnique(k * n + r, b, k, r);
      } else {
        var q := -(k as int);
        assert k * n + r == q * b + r;
        DivModUnique(k * n + r, b, q, r);
      }
    }
  }
}
