/**
  Splitting work for distribution: a Sample is split into buckets by
  sequence id, so that every aggregating node receives all results of the
  sequences it owns, and any container is split into contiguous parts of
  (nearly) equal size.
*/
module Split {
  import opened Samples
  import opened Merge

  /** The entries of src whose sequence id falls in bucket b of n, in source
      order. */
  ghost function Bucket<T>(src: seq<PQuery<T>>, n: nat, b: nat): seq<PQuery<T>>
    requires n > 0
  {
    if src == [] then []
    else
      var last := src[|src| - 1];
      Bucket(src[..|src| - 1], n, b) + (if last.id % n == b then [last] else [])
  }

  /** All n buckets of src, in bucket order. */
  ghost function Buckets<T>(src: seq<PQuery<T>>, n: nat): (parts: seq<seq<PQuery<T>>>)
    requires n > 0
    ensures |parts| == n
  {
    seq(n, b requires 0 <= b < n => Bucket(src, n, b))
  }

  lemma BucketSnoc<T>(src: seq<PQuery<T>>, x: PQuery<T>, n: nat, b: nat)
    requires n > 0
    ensures Bucket(src + [x], n, b) == Bucket(src, n, b) + (if x.id % n == b then [x] else [])
  {
    assert (src + [x])[..|src|] == src;
  }

  /** Splits src into exactly numParts parts, some possibly empty, sending
      each PQuery to the part its sequence id selects modulo numParts. */
  method SplitById<T>(src: seq<PQuery<T>>, numParts: nat) returns (parts: seq<seq<PQuery<T>>>)
    requires numParts > 0 || src == []
    ensures |parts| == numParts
    ensures forall b :: 0 <= b < numParts ==> parts[b] == Bucket(src, numParts, b)
  {
    parts := seq(numParts, b => []);
    for i := 0 to |src|
      invariant |parts| == numParts
      invariant forall b :: 0 <= b < numParts ==> parts[b] == Bucket(src[..i], numParts, b)
    {
      var bucket := src[i].id % numParts;
      parts := parts[bucket := parts[bucket] + [src[i]]];
      assert src[..i + 1] == src[..i] + [src[i]];
      forall b | 0 <= b < numParts
        ensures parts[b] == Bucket(src[..i + 1], numParts, b)
      {
        BucketSnoc(src[..i], src[i], numParts, b);
      }
    }
    assert src[..|src|] == src;
  }

  /** A PQuery is in bucket b exactly when it is in src and its id selects
      b. */
  lemma {:induction false} BucketMember<T>(src: seq<PQuery<T>>, n: nat, b: nat, x: PQuery<T>)
    requires n > 0
    ensures x in Bucket(src, n, b) <==> x in src && x.id % n == b
  {
    if src != [] {
      var src' := src[..|src| - 1];
      assert src == src' + [src[|src| - 1]];
      BucketSnoc(src', src[|src| - 1], n, b);
      BucketMember(src', n, b, x);
    }
  }

  /** Every record of a sequence reaches the bucket of its id, in source
      order, and no other bucket. */
  lemma {:induction false} BucketRecs<T>(src: seq<PQuery<T>>, n: nat, id: nat, b: nat)
    requires n > 0
    ensures RecsOf(Bucket(src, n, b), id) == if id % n == b then RecsOf(src, id) else []
  {
    if src != [] {
      var src' := src[..|src| - 1];
      var x := src[|src| - 1];
      assert src == src' + [x];
      BucketSnoc(src', x, n, b);
      BucketRecs(src', n, id, b);
      RecsOfSnoc(src', x, id);
      if x.id % n == b {
        RecsOfSnoc(Bucket(src', n, b), x, id);
      } else {
        assert Bucket(src, n, b) == Bucket(src', n, b);
        if x.id == id {
          assert id % n != b;
        } else {
          assert RecsOf(src, id) == RecsOf(src', id) + [];
        }
      }
    }
  }

  lemma {:induction false} FlattenAppendAt<E>(parts: seq<seq<E>>, k: nat, x: E)
    requires k < |parts|
    ensures multiset(Flatten(parts[k := parts[k] + [x]])) == multiset(Flatten(parts)) + multiset{x}
  {
    var ps := parts[..|parts| - 1];
    var p := parts[|parts| - 1];
    var q := parts[k := parts[k] + [x]];
    assert parts == ps + [p];
    FlattenSnoc(ps, p);
    if k == |parts| - 1 {
      assert q == ps + [p + [x]];
      FlattenSnoc(ps, p + [x]);
      assert multiset(Flatten(q)) == multiset(Flatten(ps)) + multiset(p) + multiset{x};
    } else {
      UpdateSnoc(ps, p, k, ps[k] + [x]);
      FlattenSnoc(ps[k := ps[k] + [x]], p);
      FlattenAppendAt(ps, k, x);
    }
  }

  /** The buckets together hold exactly the PQueries of src: nothing is lost
      or duplicated by the split. */
  lemma {:induction false} BucketsPartition<T>(src: seq<PQuery<T>>, n: nat)
    requires n > 0
    ensures multiset(Flatten(Buckets(src, n))) == multiset(src)
  {
    if src == [] {
      BucketsEmpty(src, n, n);
      assert Buckets(src, n)[..n] == Buckets(src, n);
    } else {
      var src' := src[..|src| - 1];
      var x := src[|src| - 1];
      assert src == src' + [x];
      BucketsPartition(src', n);
      var ps := Buckets(src', n);
      var k := x.id % n;
      forall b | 0 <= b < n
        ensures Buckets(src, n)[b] == ps[k := ps[k] + [x]][b]
      {
        BucketSnoc(src', x, n, b);
      }
      assert Buckets(src, n) == ps[k := ps[k] + [x]];
      FlattenAppendAt(ps, k, x);
    }
  }

  lemma {:induction false} BucketsEmpty<T>(src: seq<PQuery<T>>, n: nat, m: nat)
    requires src == [] && 0 < n && m <= n
    ensures Flatten(Buckets(src, n)[..m]) == []
  {
    var ps := Buckets(src, n);
    if m > 0 {
      assert ps[..m] == ps[..m - 1] + [ps[m - 1]];
      FlattenSnoc(ps[..m - 1], ps[m - 1]);
      BucketsEmpty(src, n, m - 1);
    } else {
      assert ps[..m] == [];
    }
  }

  lemma {:induction false} BucketsRecsPrefix<T>(src: seq<PQuery<T>>, n: nat, id: nat, m: nat)
    requires 0 < n && m <= n
    ensures RecsOf(Flatten(Buckets(src, n)[..m]), id) == if id % n < m then RecsOf(src, id) else []
  {
    var ps := Buckets(src, n);
    if m > 0 {
      assert ps[..m] == ps[..m - 1] + [ps[m - 1]];
      FlattenSnoc(ps[..m - 1], ps[m - 1]);
      RecsOfConcat(Flatten(ps[..m - 1]), ps[m - 1], id);
      BucketsRecsPrefix(src, n, id, m - 1);
      BucketRecs(src, n, id, m - 1);
    } else {
      assert ps[..m] == [];
    }
  }

  /** Re-merging the buckets, in bucket order, into an empty Sample gives
      every sequence id exactly the records it had in src, in their order. */
  lemma SplitMergeRecs<T>(src: seq<PQuery<T>>, n: nat, id: nat)
    requires n > 0
    ensures RecsOf(MergeAll([], Flatten(Buckets(src, n))), id) == RecsOf(src, id)
  {
    var ps := Buckets(src, n);
    BucketsRecsPrefix(src, n, id, n);
    assert ps[..n] == ps;
    MergeAllRecs([], Flatten(ps), id);
  }

  /** The ceiling of a / b, for b > 0. */
  function CeilDiv(a: nat, b: nat): (r: nat)
    requires b > 0
    ensures r * b >= a
    ensures r == 0 || (r - 1) * b < a
  {
    (a + b - 1) / b
  }

  /** The chunk size of the even split: the ceiling of size over numParts.
      With no parts and nothing to split it is never used. */
  function ChunkSize(size: nat, numParts: nat): nat
    requires numParts > 0 || size == 0
  {
    if numParts == 0 then 0 else CeilDiv(size, numParts)
  }

  /** Splits src into contiguous parts of ChunkSize elements each, the last
      one possibly shorter; there are no empty parts, so an empty src gives
      no parts at all. */
  method SplitEven<E>(src: seq<E>, numParts: nat) returns (parts: seq<seq<E>>)
    requires numParts > 0 || src == []
    ensures Flatten(parts) == src
    ensures |parts| <= numParts
    ensures forall p :: 0 <= p < |parts| ==> 0 < |parts[p]| <= ChunkSize(|src|, numParts)
    ensures forall p :: 0 <= p < |parts| - 1 ==> |parts[p]| == ChunkSize(|src|, numParts)
  {
    parts := [];
    var chunk := ChunkSize(|src|, numParts);
    var begin := 0;
    while begin < |src|
      invariant 0 <= begin <= |src|
      invariant Flatten(parts) == src[..begin]
      invariant |parts| <= numParts
      invariant begin < |src| ==> begin == |parts| * chunk
      invariant forall p :: 0 <= p < |parts| ==> 0 < |parts[p]| <= chunk
      invariant forall p :: 0 <= p < |parts| - 1 ==> |parts[p]| == chunk
      invariant begin < |src| ==> forall p :: 0 <= p < |parts| ==> |parts[p]| == chunk
      decreases |src| - begin
    {
      var end := if begin + chunk < |src| then begin + chunk else |src|;
      ChunkStep(|parts|, chunk, numParts, |src|, begin, end);
      FlattenSnoc(parts, src[begin..end]);
      assert src[..end] == src[..begin] + src[begin..end];
      parts := parts + [src[begin..end]];
      begin := end;
    }
    assert src[..|src|] == src;
  }

  /** One chunk further: while the chunks made do not yet cover size, fewer
      than numParts of them have been made, the next chunk is not empty, and
      unless it reaches the end it is a full one. */
  lemma ChunkStep(made: nat, chunk: nat, numParts: nat, size: nat, begin: nat, end: nat)
    requires numParts > 0 || size == 0
    requires chunk == ChunkSize(size, numParts)
    requires begin < size && begin == made * chunk
    requires end == if begin + chunk < size then begin + chunk else size
    ensures made < numParts && begin < end <= begin + chunk
    ensures end < size ==> end == (made + 1) * chunk
  {
    var d: int := numParts - made;
    assert d * chunk == numParts * chunk - made * chunk;
    assert (made + 1) * chunk == made * chunk + chunk;
  }
}
