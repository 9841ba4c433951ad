/**
  Product quantisation (include/pq_table.h, include/ssd_index.h), in real arithmetic: the
  dimensions are permuted and cut into chunks, and each chunk of a vector is coded by one of 256
  centres.
 */
module ProductQuantisation {
  import opened Arith
  import opened Basics

  const CENTRES: nat := 256

  type Code = seq<nat>

  function Sq(x: real): real { x * x }

  /** tables is the flat array of centres, one row of ndims values per centre. */
  datatype Book = Book(ndims: nat, chunks: nat, tables: seq<real>, centroid: seq<real>, rearrangement: seq<nat>, offsets: seq<nat>)

  ghost predicate Permutation(s: seq<nat>) {
    (forall i :: 0 <= i < |s| ==> s[i] < |s|) && Distinct(s)
  }

  /** The chunk offsets partition the dimensions. */
  ghost predicate BookOk(b: Book) {
    && |b.tables| == CENTRES * b.ndims && |b.centroid| == |b.rearrangement| == b.ndims && Permutation(b.rearrangement)
    && |b.offsets| == b.chunks + 1 && b.offsets[0] == 0 && b.offsets[b.chunks] == b.ndims
    && (forall c, c' :: 0 <= c <= c' <= b.chunks ==> b.offsets[c] <= b.offsets[c'])
  }

  lemma CentreIndex(b: Book, i: nat, d: nat)
    requires BookOk(b) && i < CENTRES && d < b.ndims
    ensures 0 <= i * b.ndims + d < |b.tables|
  {
    MulMono(i + 1, CENTRES, b.ndims);
  }

  /** Coordinate d, in permuted order, of centre i. */
  function Centre(b: Book, i: nat, d: nat): real
    requires BookOk(b) && i < CENTRES && d < b.ndims
  {
    CentreIndex(b, i, d);
    b.tables[i * b.ndims + d]
  }

  /** Coordinate d, in permuted order, of a centred query. */
  function Residual(b: Book, q: seq<real>, d: nat): real
    requires BookOk(b) && |q| == b.ndims && d < b.ndims
  {
    q[b.rearrangement[d]] - b.centroid[b.rearrangement[d]]
  }

  /** Squared distance of the query to centre i over the dimensions lo to hi - 1. */
  function Span(b: Book, q: seq<real>, i: nat, lo: nat, hi: nat): real
    requires BookOk(b) && |q| == b.ndims && i < CENTRES && lo <= hi <= b.ndims
    decreases hi - lo
  {
    if lo == hi then 0.0 else Span(b, q, i, lo, hi - 1) + Sq(Centre(b, i, hi - 1) - Residual(b, q, hi - 1))
  }

  function ChunkDist(b: Book, q: seq<real>, i: nat, c: nat): real
    requires BookOk(b) && |q| == b.ndims && i < CENTRES && c < b.chunks
  {
    Span(b, q, i, b.offsets[c], b.offsets[c + 1])
  }

  ghost predicate IsCode(b: Book, code: Code) { |code| == b.chunks && forall c :: 0 <= c < |code| ==> code[c] < CENTRES }

  /** Distance of the query to a code, chunk by chunk. */
  function CodeDist(b: Book, q: seq<real>, code: Code, n: nat): real
    requires BookOk(b) && |q| == b.ndims && IsCode(b, code) && n <= b.chunks
  {
    if n == 0 then 0.0 else CodeDist(b, q, code, n - 1) + ChunkDist(b, q, code[n - 1], n - 1)
  }

  // ---------------------------------------------------------------- what the sums mean

  /** The vector, in the original order of dimensions, that a code stands for. */
  ghost predicate Decodes(b: Book, code: Code, x: seq<real>)
    requires BookOk(b) && IsCode(b, code)
  {
    && |x| == b.ndims
    && forall c, d :: 0 <= c < b.chunks && b.offsets[c] <= d < b.offsets[c + 1] ==> DecodedAt(b, code, x, c, d)
  }

  ghost predicate DecodedAt(b: Book, code: Code, x: seq<real>, c: nat, d: nat)
    requires BookOk(b) && IsCode(b, code) && |x| == b.ndims && c < b.chunks && d < b.offsets[c + 1]
  {
    x[b.rearrangement[d]] == Centre(b, code[c], d) + b.centroid[b.rearrangement[d]]
  }

  lemma {:induction false} ChunkOf(b: Book, d: nat, n: nat) returns (c: nat)
    requires BookOk(b) && n <= b.chunks && d < b.offsets[n]
    ensures c < n && b.offsets[c] <= d < b.offsets[c + 1]
  {
    if b.offsets[n - 1] <= d { c := n - 1; } else { c := ChunkOf(b, d, n - 1); }
  }

  lemma {:induction false} DecodedUpTo(b: Book, code: Code, n: nat) returns (x: seq<real>)
    requires BookOk(b) && IsCode(b, code) && n <= b.ndims
    ensures |x| == b.ndims
    ensures forall c, d :: 0 <= c < b.chunks && b.offsets[c] <= d < b.offsets[c + 1] && d < n ==> DecodedAt(b, code, x, c, d)
  {
    if n == 0 {
      x := seq(b.ndims, _ => 0.0);
    } else {
      var y := DecodedUpTo(b, code, n - 1);
      var k := ChunkOf(b, n - 1, b.chunks);
      x := y[b.rearrangement[n - 1] := Centre(b, code[k], n - 1) + b.centroid[b.rearrangement[n - 1]]];
      forall c, d | 0 <= c < b.chunks && b.offsets[c] <= d < b.offsets[c + 1] && d < n ensures DecodedAt(b, code, x, c, d) {
        if d < n - 1 { assert DecodedAt(b, code, y, c, d); } else { assert c == k; }
      }
    }
  }

  /** Every code stands for exactly one vector. */
  lemma DecodedExists(b: Book, code: Code) returns (x: seq<real>)
    requires BookOk(b) && IsCode(b, code)
    ensures Decodes(b, code, x) && forall y :: Decodes(b, code, y) ==> y == x
  {
    x := DecodedUpTo(b, code, b.ndims);
    forall y | Decodes(b, code, y) ensures y == x {
      forall j | 0 <= j < b.ndims ensures y[j] == x[j] {
        var d := PermutationOnto(b.rearrangement, j);
        var c := ChunkOf(b, d, b.chunks);
        assert DecodedAt(b, code, x, c, d) && DecodedAt(b, code, y, c, d);
      }
    }
  }

  lemma PermutationOnto(s: seq<nat>, j: nat) returns (d: nat)
    requires Permutation(s) && j < |s|
    ensures d < |s| && s[d] == j
  {
    var v := set x | x in s;
    DistinctCount(s, v);
    if j !in s {
      BoundCount(v + {j}, |s|);
      assert false;
    }
    d :| 0 <= d < |s| && s[d] == j;
  }

  function SqDist(q: seq<real>, x: seq<real>, n: nat): real
    requires n <= |q| && n <= |x|
  {
    if n == 0 then 0.0 else SqDist(q, x, n - 1) + Sq(q[n - 1] - x[n - 1])
  }

  /** It is nought exactly between equal vectors, and never negative. */
  lemma {:induction false} SqDistZero(q: seq<real>, x: seq<real>, n: nat)
    requires n <= |q| && n <= |x|
    ensures SqDist(q, x, n) >= 0.0 && (SqDist(q, x, n) == 0.0 <==> forall d :: 0 <= d < n ==> q[d] == x[d])
    ensures SqDist(q, x, n) == SqDist(x, q, n)
  {
    if n > 0 {
      SqDistZero(q, x, n - 1);
      SqMeans(q[n - 1] - x[n - 1]);
    }
  }

  lemma SqMeans(d: real)
    ensures Sq(d) >= 0.0 && (Sq(d) == 0.0 <==> d == 0.0) && Sq(-d) == Sq(d)
  {
    var e := -d;
    assert Sq(e) == e * e == d * d;
    if d > 0.0 {
      SqPositive(d);
    } else if e > 0.0 {
      SqPositive(e);
    } else {
      assert Sq(d) == 0.0 * d;
    }
  }

  lemma SqPositive(d: real)
    requires d > 0.0
    ensures Sq(d) > 0.0
  {
    calc {
      Sq(d);
    ==
      d * d;
    >  { Positive(d); }
      0.0;
    }
  }

  lemma Positive(d: real)
    requires d > 0.0
    ensures d * d > 0.0
  {
  }

  /** The sum of a function over the listed dimensions, and over the first n. */
  function Listed(f: nat -> real, dims: seq<nat>): real {
    if dims == [] then 0.0 else Listed(f, dims[..|dims| - 1]) + f(dims[|dims| - 1])
  }

  function UpTo(f: nat -> real, n: nat): real { if n == 0 then 0.0 else UpTo(f, n - 1) + f(n - 1) }

  lemma {:induction false} ListedWithout(f: nat -> real, dims: seq<nat>, k: nat)
    requires k < |dims|
    ensures Listed(f, dims) == Listed(f, dims[..k] + dims[k + 1..]) + f(dims[k])
    decreases |dims|
  {
    var n := |dims| - 1;
    if k == n {
      assert dims[..k] + dims[k + 1..] == dims[..n];
    } else {
      var rest := dims[..k] + dims[k + 1..];
      ListedWithout(f, dims[..n], k);
      assert rest[..|rest| - 1] == dims[..n][..k] + dims[..n][k + 1..];
    }
  }

  lemma RemoveLargest(s: seq<nat>, k: nat)
    requires Permutation(s) && k < |s| && s[k] == |s| - 1
    ensures Permutation(s[..k] + s[k + 1..])
  {
    var rest := s[..k] + s[k + 1..];
    assert forall i :: 0 <= i < |rest| ==> rest[i] == s[if i < k then i else i + 1];
  }

  /** Summing over the dimensions in permuted order is summing over them. */
  lemma {:induction false} PermutedSum(f: nat -> real, dims: seq<nat>)
    requires Permutation(dims)
    ensures Listed(f, dims) == UpTo(f, |dims|)
    decreases |dims|
  {
    if dims != [] {
      var n := |dims| - 1;
      var k := PermutationOnto(dims, n);
      var rest := dims[..k] + dims[k + 1..];
      RemoveLargest(dims, k);
      ListedWithout(f, dims, k);
      PermutedSum(f, rest);
    }
  }

  /** The squared difference in one dimension. */
  function Gap(q: seq<real>, x: seq<real>): nat -> real {
    (p: nat) => if p < |q| && p < |x| then Sq(q[p] - x[p]) else 0.0
  }

  lemma {:induction false} UpToIsDist(q: seq<real>, x: seq<real>, n: nat)
    requires n <= |q| && n <= |x|
    ensures UpTo(Gap(q, x), n) == SqDist(q, x, n)
  {
    if n > 0 { UpToIsDist(q, x, n - 1); }
  }

  lemma SqSymmetric(a: real, b: real)
    ensures Sq(a - b) == Sq(b - a)
  {
  }

  /** One more dimension of a chunk, seen in the permuted and in the original order. */
  lemma SpanStep(b: Book, q: seq<real>, code: Code, x: seq<real>, c: nat, d: nat)
    requires BookOk(b) && |q| == b.ndims && IsCode(b, code) && Decodes(b, code, x)
    requires c < b.chunks && b.offsets[c] <= d < b.offsets[c + 1]
    ensures d < b.ndims && Gap(q, x)(b.rearrangement[d]) == Sq(Centre(b, code[c], d) - Residual(b, q, d))
  {
    assert b.offsets[c + 1] <= b.offsets[b.chunks];
    assert DecodedAt(b, code, x, c, d);
    var p := b.rearrangement[d];
    SqSymmetric(q[p], x[p]);
    assert x[p] - q[p] == Centre(b, code[c], d) - Residual(b, q, d);
  }

  lemma {:induction false} SpanIsListed(b: Book, q: seq<real>, code: Code, x: seq<real>, c: nat, hi: nat)
    requires BookOk(b) && |q| == b.ndims && IsCode(b, code) && Decodes(b, code, x)
    requires c < b.chunks && b.offsets[c] <= hi <= b.offsets[c + 1] <= b.ndims
    ensures Listed(Gap(q, x), b.rearrangement[..hi])
         == Listed(Gap(q, x), b.rearrangement[..b.offsets[c]]) + Span(b, q, code[c], b.offsets[c], hi)
    decreases hi
  {
    if hi > b.offsets[c] {
      SpanIsListed(b, q, code, x, c, hi - 1);
      SpanStep(b, q, code, x, c, hi - 1);
      assert b.rearrangement[..hi][..hi - 1] == b.rearrangement[..hi - 1];
    }
  }

  lemma {:induction false} CodeIsListed(b: Book, q: seq<real>, code: Code, x: seq<real>, n: nat)
    requires BookOk(b) && |q| == b.ndims && IsCode(b, code) && Decodes(b, code, x) && n <= b.chunks
    ensures b.offsets[n] <= b.ndims && CodeDist(b, q, code, n) == Listed(Gap(q, x), b.rearrangement[..b.offsets[n]])
  {
    assert b.offsets[n] <= b.offsets[b.chunks];
    if n > 0 {
      CodeIsListed(b, q, code, x, n - 1);
      SpanIsListed(b, q, code, x, n - 1, b.offsets[n]);
    }
  }

  /** Summed chunk by chunk, the distance to a code is the squared distance to the vector that
      the code stands for. */
  lemma CodeDistIsDistance(b: Book, q: seq<real>, code: Code, x: seq<real>)
    requires BookOk(b) && |q| == b.ndims && IsCode(b, code) && Decodes(b, code, x)
    ensures CodeDist(b, q, code, b.chunks) == SqDist(q, x, b.ndims)
  {
    CodeIsListed(b, q, code, x, b.chunks);
    assert b.rearrangement[..b.ndims] == b.rearrangement;
    PermutedSum(Gap(q, x), b.rearrangement);
    UpToIsDist(q, x, b.ndims);
  }

  // ---------------------------------------------------------------- tables

  ghost predicate TransposedAt(b: Book, t: seq<real>, j: nat, i: nat)
    requires BookOk(b) && |t| == CENTRES * b.ndims && j < b.ndims && i < CENTRES
  {
    t[256 * j + i] == Centre(b, i, j)
  }

  /** tables_T holds, for each dimension, the 256 centres' values in a row. */
  ghost predicate Transposed(b: Book, t: seq<real>)
    requires BookOk(b)
  {
    |t| == CENTRES * b.ndims && forall j: nat, i: nat :: j < b.ndims && i < CENTRES ==> TransposedAt(b, t, j, i)
  }

  /** Columns before i are transposed, and column i up to dimension j. */
  ghost predicate TransposedTo(b: Book, t: seq<real>, i: nat, j: nat)
    requires BookOk(b) && i <= CENTRES && j <= b.ndims
  {
    && |t| == CENTRES * b.ndims
    && (forall m: nat, k: nat :: m < b.ndims && k < i ==> TransposedAt(b, t, m, k))
    && (i < CENTRES ==> forall m: nat :: m < j ==> TransposedAt(b, t, m, i))
  }

  lemma TransposeMore(b: Book, t: seq<real>, i: nat, j: nat)
    requires BookOk(b) && i < CENTRES && j < b.ndims && TransposedTo(b, t, i, j)
    ensures TransposedTo(b, t[j * 256 + i := Centre(b, i, j)], i, j + 1)
  {
    var t' := t[j * 256 + i := Centre(b, i, j)];
    forall m: nat, k: nat | m < b.ndims && k < i ensures TransposedAt(b, t', m, k) { assert TransposedAt(b, t, m, k); }
    forall m: nat | m < j ensures TransposedAt(b, t', m, i) { assert TransposedAt(b, t, m, i); }
  }

  method Transpose(b: Book) returns (t: array<real>)
    requires BookOk(b)
    ensures fresh(t) && Transposed(b, t[..])
  {
    t := new real[CENTRES * b.ndims](_ => 0.0);
    var i: nat := 0;
    while i < CENTRES
      invariant i <= CENTRES && fresh(t) && TransposedTo(b, t[..], i, 0)
    {
      var j: nat := 0;
      while j < b.ndims
        invariant j <= b.ndims && fresh(t) && TransposedTo(b, t[..], i, j)
      {
        ghost var s := t[..];
        TransposeMore(b, s, i, j);
        t[j * 256 + i] := Centre(b, i, j);
        assert t[..] == s[j * 256 + i := Centre(b, i, j)];
        j := j + 1;
      }
      i := i + 1;
    }
  }

  /** Row c of a distance table covers the dimensions of the chunk up to hi. */
  ghost predicate RowAt(b: Book, q: seq<real>, dist: seq<real>, c: nat, i: nat, hi: nat)
    requires BookOk(b) && |q| == b.ndims && |dist| == CENTRES * b.chunks && c < b.chunks && i < CENTRES
    requires b.offsets[c] <= hi <= b.ndims
  {
    dist[256 * c + i] == Span(b, q, i, b.offsets[c], hi)
  }

  ghost predicate SameBut(s: seq<real>, t: seq<real>, lo: nat, hi: nat) {
    |s| == |t| && forall k :: 0 <= k < |s| && !(lo <= k < hi) ==> t[k] == s[k]
  }

  /** The first n entries of row c reach up to hi', the others up to hi. */
  ghost predicate RowTo(b: Book, q: seq<real>, dist: seq<real>, c: nat, n: nat, hi': nat, hi: nat)
    requires BookOk(b) && |q| == b.ndims && |dist| == CENTRES * b.chunks && c < b.chunks && n <= CENTRES
    requires b.offsets[c] <= hi <= b.ndims && b.offsets[c] <= hi' <= b.ndims
  {
    && (forall i: nat :: i < n ==> RowAt(b, q, dist, c, i, hi'))
    && (forall i: nat :: n <= i < CENTRES ==> RowAt(b, q, dist, c, i, hi))
  }

  /** Adds dimension j to all entries of one row. */
  method AddDimension(b: Book, t: seq<real>, q: seq<real>, dist: array<real>, c: nat, j: nat)
    requires BookOk(b) && Transposed(b, t) && |q| == b.ndims && dist.Length == CENTRES * b.chunks
    requires c < b.chunks && b.offsets[c] <= j < b.ndims && RowTo(b, q, dist[..], c, 0, j, j)
    modifies dist
    ensures RowTo(b, q, dist[..], c, 0, j + 1, j + 1)
    ensures SameBut(old(dist[..]), dist[..], 256 * c, 256 * c + 256)
  {
    ghost var s := dist[..];
    var i: nat, j': nat := 0, j + 1;
    while i < CENTRES
      invariant i <= CENTRES && SameBut(s, dist[..], 256 * c, 256 * c + 256) && RowTo(b, q, dist[..], c, i, j', j)
    {
      ghost var r := dist[..];
      var diff := t[256 * j + i] - Residual(b, q, j);
      assert TransposedAt(b, t, j, i) && RowAt(b, q, r, c, i, j);
      dist[256 * c + i] := dist[256 * c + i] + Sq(diff);
      forall k: nat | k < i ensures RowAt(b, q, dist[..], c, k, j') { assert RowAt(b, q, r, c, k, j'); }
      forall k: nat | i < k < CENTRES ensures RowAt(b, q, dist[..], c, k, j) { assert RowAt(b, q, r, c, k, j); }
      assert RowAt(b, q, dist[..], c, i, j');
      i := i + 1;
    }
  }

  ghost predicate EntryAt(b: Book, q: seq<real>, dist: seq<real>, c: nat, i: nat)
    requires BookOk(b) && |q| == b.ndims && |dist| == CENTRES * b.chunks && c < b.chunks && i < CENTRES
  {
    dist[256 * c + i] == ChunkDist(b, q, i, c)
  }

  /** The distances of a query to all centres, chunk by chunk. */
  method PopulateChunkDistances(b: Book, t: seq<real>, q: seq<real>) returns (dist: array<real>)
    requires BookOk(b) && Transposed(b, t) && |q| == b.ndims
    ensures fresh(dist) && dist.Length == CENTRES * b.chunks
    ensures forall c: nat, i: nat :: c < b.chunks && i < CENTRES ==> EntryAt(b, q, dist[..], c, i)
  {
    dist := new real[CENTRES * b.chunks](_ => 0.0);
    var c: nat := 0;
    while c < b.chunks
      invariant c <= b.chunks && fresh(dist) && dist.Length == CENTRES * b.chunks
      invariant forall k: nat, i: nat :: k < c && i < CENTRES ==> EntryAt(b, q, dist[..], k, i)
      invariant forall k :: 256 * c <= k < dist.Length ==> dist[k] == 0.0
    {
      ghost var s := dist[..];
      var j := b.offsets[c];
      assert b.offsets[c] <= b.offsets[c + 1] <= b.offsets[b.chunks];
      while j < b.offsets[c + 1]
        invariant b.offsets[c] <= j <= b.offsets[c + 1] && fresh(dist) && SameBut(s, dist[..], 256 * c, 256 * c + 256)
        invariant RowTo(b, q, dist[..], c, 0, j, j)
      {
        AddDimension(b, t, q, dist, c, j);
        j := j + 1;
      }
      forall k: nat, i: nat | k < c && i < CENTRES ensures EntryAt(b, q, dist[..], k, i) { assert EntryAt(b, q, s, k, i); }
      forall i: nat | i < CENTRES ensures EntryAt(b, q, dist[..], c, i) { assert RowAt(b, q, dist[..], c, i, j); }
      c := c + 1;
    }
  }

  // ---------------------------------------------------------------- looking up

  lemma CodeBounds(n: nat, count: nat, k: nat)
    requires k < count
    ensures 0 <= n * k && n * k + n <= n * count
  {
    MulMono(k + 1, count, n);
  }

  /** The k-th of the codes stored one after the other. */
  function CodeOf(ids: seq<nat>, n: nat, count: nat, k: nat): Code
    requires |ids| == n * count && k < count
  {
    CodeBounds(n, count, k);
    ids[n * k..n * k + n]
  }

  ghost predicate CodesOk(b: Book, ids: seq<nat>, count: nat) {
    |ids| == b.chunks * count && forall i :: 0 <= i < |ids| ==> ids[i] < CENTRES
  }

  /** The lookup sums one table entry per chunk, and so computes the distance of each code. */
  method PqDistLookup(b: Book, ids: seq<nat>, count: nat, dist: seq<real>, ghost q: seq<real>) returns (out: array<real>)
    requires BookOk(b) && |q| == b.ndims && CodesOk(b, ids, count) && |dist| == CENTRES * b.chunks
    requires forall c: nat, i: nat :: c < b.chunks && i < CENTRES ==> EntryAt(b, q, dist, c, i)
    ensures out.Length == count
    ensures forall k: nat :: k < count ==>
      IsCode(b, CodeOf(ids, b.chunks, count, k)) && out[k] == CodeDist(b, q, CodeOf(ids, b.chunks, count, k), b.chunks)
  {
    out := new real[count](_ => 0.0);
    forall k: nat | k < count ensures IsCode(b, CodeOf(ids, b.chunks, count, k)) { CodeBounds(b.chunks, count, k); }
    var c: nat := 0;
    while c < b.chunks
      invariant c <= b.chunks && out.Length == count
      invariant forall k: nat :: k < count ==> out[k] == CodeDist(b, q, CodeOf(ids, b.chunks, count, k), c)
    {
      var k: nat, c': nat := 0, c + 1;
      while k < count
        invariant k <= count
        invariant forall m: nat :: m < k ==> out[m] == CodeDist(b, q, CodeOf(ids, b.chunks, count, m), c')
        invariant forall m: nat :: k <= m < count ==> out[m] == CodeDist(b, q, CodeOf(ids, b.chunks, count, m), c)
      {
        CodeBounds(b.chunks, count, k);
        var centre := ids[b.chunks * k + c];
        assert centre == CodeOf(ids, b.chunks, count, k)[c] && EntryAt(b, q, dist, c, centre);
        out[k] := out[k] + dist[256 * c + centre];
        k := k + 1;
      }
      c := c + 1;
    }
  }

  // ---------------------------------------------------------------- coding

  /** The closest centre of one chunk. */
  method ClosestCentre(b: Book, x: seq<real>, c: nat) returns (best: nat)
    requires BookOk(b) && |x| == b.ndims && c < b.chunks
    ensures best < CENTRES && forall i: nat :: i < CENTRES ==> ChunkDist(b, x, best, c) <= ChunkDist(b, x, i, c)
  {
    assert b.offsets[c] <= b.offsets[c + 1] <= b.offsets[b.chunks];
    best := 0;
    var closest := 0.0;
    var i: nat := 0;
    while i < CENTRES
      invariant i <= CENTRES && best < CENTRES
      invariant i > 0 ==> closest == ChunkDist(b, x, best, c) && forall k: nat :: k < i ==> closest <= ChunkDist(b, x, k, c)
    {
      var cur, d := 0.0, b.offsets[c];
      while d < b.offsets[c + 1]
        invariant b.offsets[c] <= d <= b.offsets[c + 1] && cur == Span(b, x, i, b.offsets[c], d)
      {
        CentreIndex(b, i, d);
        cur := cur + Sq(b.tables[i * b.ndims + d] - Residual(b, x, d));
        d := d + 1;
      }
      // the initial bound, the largest float, is above every distance
      if i == 0 || cur < closest {
        closest, best := cur, i;
      }
      i := i + 1;
    }
  }

  lemma {:induction false} CodeDistMono(b: Book, x: seq<real>, code: Code, other: Code, n: nat)
    requires BookOk(b) && |x| == b.ndims && IsCode(b, code) && IsCode(b, other) && n <= b.chunks
    requires forall c: nat :: c < n ==> ChunkDist(b, x, code[c], c) <= ChunkDist(b, x, other[c], c)
    ensures CodeDist(b, x, code, n) <= CodeDist(b, x, other, n)
  {
    if n > 0 { CodeDistMono(b, x, code, other, n - 1); }
  }

  ghost predicate BestChunk(b: Book, x: seq<real>, i: nat, c: nat)
    requires BookOk(b) && |x| == b.ndims && i < CENTRES && c < b.chunks
  {
    forall k: nat :: k < CENTRES ==> ChunkDist(b, x, i, c) <= ChunkDist(b, x, k, c)
  }

  /** deflate_vec: no code is closer to the vector. */
  method DeflateVec(b: Book, x: seq<real>) returns (code: Code)
    requires BookOk(b) && |x| == b.ndims
    ensures IsCode(b, code)
    ensures forall other :: IsCode(b, other) ==> CodeDist(b, x, code, b.chunks) <= CodeDist(b, x, other, b.chunks)
  {
    code := [];
    while |code| < b.chunks
      invariant |code| <= b.chunks && (forall c :: 0 <= c < |code| ==> code[c] < CENTRES)
      invariant forall c: nat :: c < |code| ==> BestChunk(b, x, code[c], c)
    {
      var best := ClosestCentre(b, x, |code|);
      code := code + [best];
    }
    forall other | IsCode(b, other) ensures CodeDist(b, x, code, b.chunks) <= CodeDist(b, x, other, b.chunks) {
      forall c: nat | c < b.chunks ensures ChunkDist(b, x, code[c], c) <= ChunkDist(b, x, other[c], c) {
        assert BestChunk(b, x, code[c], c);
      }
      CodeDistMono(b, x, code, other, b.chunks);
    }
  }

  /** A code with the least summed distance stands for the closest of all coded vectors. */
  lemma DeflateIsOptimal(b: Book, x: seq<real>, code: Code, y: seq<real>, other: Code, z: seq<real>)
    requires BookOk(b) && |x| == b.ndims && IsCode(b, code) && IsCode(b, other)
    requires CodeDist(b, x, code, b.chunks) <= CodeDist(b, x, other, b.chunks)
    requires Decodes(b, code, y) && Decodes(b, other, z)
    ensures SqDist(x, y, b.ndims) <= SqDist(x, z, b.ndims)
  {
    CodeDistIsDistance(b, x, code, y);
    CodeDistIsDistance(b, x, other, z);
  }

  // ---------------------------------------------------------------- distances between codes

  /** Squared distance of two centres over the dimensions lo to hi - 1. */
  function PairSpan(b: Book, i: nat, j: nat, lo: nat, hi: nat): real
    requires BookOk(b) && i < CENTRES && j < CENTRES && lo <= hi <= b.ndims
    decreases hi - lo
  {
    if lo == hi then 0.0 else PairSpan(b, i, j, lo, hi - 1) + Sq(Centre(b, i, hi - 1) - Centre(b, j, hi - 1))
  }

  function PairDist(b: Book, i: nat, j: nat, c: nat): real
    requires BookOk(b) && i < CENTRES && j < CENTRES && c < b.chunks
  {
    PairSpan(b, i, j, b.offsets[c], b.offsets[c + 1])
  }

  /** The place of a pair of centres and a chunk in the flat table. */
  function Cell(n: nat, i: nat, j: nat, c: nat): nat { (i * 256 + j) * n + c }

  lemma CellUnique(n: nat, i: nat, j: nat, c: nat, i': nat, j': nat, c': nat)
    requires j < CENTRES && j' < CENTRES && c < n && c' < n && Cell(n, i, j, c) == Cell(n, i', j', c')
    ensures i == i' && j == j' && c == c'
  {
    QuotientUnique(i * 256 + j, c, i' * 256 + j', c', n);
  }

  lemma CellBound(n: nat, i: nat, j: nat, c: nat)
    requires i < CENTRES && j < CENTRES && c < n
    ensures Cell(n, i, j, c) < 256 * 256 * n
  {
    MulMono(i * 256 + j + 1, 65536, n);
  }

  ghost predicate CellAt(b: Book, t: seq<real>, i: nat, j: nat, c: nat)
    requires BookOk(b) && |t| == 256 * 256 * b.chunks && i < CENTRES && j < CENTRES && c < b.chunks
  {
    CellBound(b.chunks, i, j, c);
    t[Cell(b.chunks, i, j, c)] == PairDist(b, i, j, c)
  }

  /** The table is filled in the order of its cells. */
  ghost predicate FilledTo(b: Book, t: seq<real>, n: nat)
    requires BookOk(b)
  {
    && |t| == 256 * 256 * b.chunks
    && (forall i: nat, j: nat, c: nat :: i < CENTRES && j < CENTRES && c < b.chunks && Cell(b.chunks, i, j, c) < n ==> CellAt(b, t, i, j, c))
    && (forall k :: n <= k < |t| ==> t[k] == 0.0)
  }

  lemma FillCell(b: Book, t: seq<real>, i: nat, j: nat, c: nat)
    requires BookOk(b) && i < CENTRES && j < CENTRES && c < b.chunks && FilledTo(b, t, Cell(b.chunks, i, j, c))
    ensures Cell(b.chunks, i, j, c) < |t|
    ensures FilledTo(b, t[Cell(b.chunks, i, j, c) := PairDist(b, i, j, c)], Cell(b.chunks, i, j, c) + 1)
  {
    var n := b.chunks;
    CellBound(n, i, j, c);
    var t' := t[Cell(n, i, j, c) := PairDist(b, i, j, c)];
    forall i': nat, j': nat, c': nat | i' < CENTRES && j' < CENTRES && c' < n && Cell(n, i', j', c') < Cell(n, i, j, c) + 1
      ensures CellAt(b, t', i', j', c')
    {
      CellBound(n, i', j', c');
      if Cell(n, i', j', c') == Cell(n, i, j, c) { CellUnique(n, i, j, c, i', j', c'); } else { assert CellAt(b, t, i', j', c'); }
    }
  }

  /** One cell of the table, summed over the dimensions of its chunk. */
  method PairCell(b: Book, t: array<real>, i: nat, j: nat, c: nat)
    requires BookOk(b) && i < CENTRES && j < CENTRES && c < b.chunks && FilledTo(b, t[..], Cell(b.chunks, i, j, c))
    modifies t
    ensures FilledTo(b, t[..], Cell(b.chunks, i, j, c) + 1)
  {
    assert b.offsets[c] <= b.offsets[c + 1] <= b.offsets[b.chunks];
    ghost var s := t[..];
    FillCell(b, s, i, j, c);
    var k := Cell(b.chunks, i, j, c);
    var d := b.offsets[c];
    while d < b.offsets[c + 1]
      invariant b.offsets[c] <= d <= b.offsets[c + 1]
      invariant t[..] == s[k := PairSpan(b, i, j, b.offsets[c], d)]
    {
      var diff := Centre(b, i, d) - Centre(b, j, d);
      t[k] := t[k] + Sq(diff);
      d := d + 1;
    }
  }

  method AllToAll(b: Book) returns (t: array<real>)
    requires BookOk(b)
    ensures t.Length == 256 * 256 * b.chunks
    ensures forall i: nat, j: nat, c: nat :: i < CENTRES && j < CENTRES && c < b.chunks ==> CellAt(b, t[..], i, j, c)
  {
    t := new real[256 * 256 * b.chunks](_ => 0.0);
    var i: nat := 0;
    while i < CENTRES
      invariant i <= CENTRES && fresh(t) && FilledTo(b, t[..], Cell(b.chunks, i, 0, 0))
    {
      var j: nat := 0;
      while j < CENTRES
        invariant j <= CENTRES && fresh(t) && FilledTo(b, t[..], Cell(b.chunks, i, j, 0))
      {
        var c: nat := 0;
        while c < b.chunks
          invariant c <= b.chunks && fresh(t) && FilledTo(b, t[..], Cell(b.chunks, i, j, c))
        {
          PairCell(b, t, i, j, c);
          c := c + 1;
        }
        assert Cell(b.chunks, i, j, b.chunks) == Cell(b.chunks, i, j + 1, 0);
        j := j + 1;
      }
      i := i + 1;
    }
    forall i: nat, j: nat, c: nat | i < CENTRES && j < CENTRES && c < b.chunks ensures CellAt(b, t[..], i, j, c) {
      CellBound(b.chunks, i, j, c);
    }
  }

  /** The distance of two codes by table, chunk by chunk. */
  function PairSum(b: Book, s: Code, t: Code, n: nat): real
    requires BookOk(b) && IsCode(b, s) && IsCode(b, t) && n <= b.chunks
  {
    if n == 0 then 0.0 else PairSum(b, s, t, n - 1) + PairDist(b, s[n - 1], t[n - 1], n - 1)
  }

  lemma {:induction false} PairIsSpan(b: Book, s: Code, x: seq<real>, j: nat, c: nat, hi: nat)
    requires BookOk(b) && IsCode(b, s) && Decodes(b, s, x) && j < CENTRES
    requires c < b.chunks && b.offsets[c] <= hi <= b.offsets[c + 1] <= b.ndims
    ensures PairSpan(b, s[c], j, b.offsets[c], hi) == Span(b, x, j, b.offsets[c], hi)
    decreases hi
  {
    if hi > b.offsets[c] {
      PairIsSpan(b, s, x, j, c, hi - 1);
      assert DecodedAt(b, s, x, c, hi - 1);
      assert Residual(b, x, hi - 1) == Centre(b, s[c], hi - 1);
      SqSymmetric(Centre(b, s[c], hi - 1), Centre(b, j, hi - 1));
    }
  }

  lemma {:induction false} PairSumIsCodeDist(b: Book, s: Code, x: seq<real>, t: Code, n: nat)
    requires BookOk(b) && IsCode(b, s) && IsCode(b, t) && Decodes(b, s, x) && n <= b.chunks
    ensures PairSum(b, s, t, n) == CodeDist(b, x, t, n)
  {
    if n > 0 {
      PairSumIsCodeDist(b, s, x, t, n - 1);
      assert b.offsets[n] <= b.offsets[b.chunks];
      PairIsSpan(b, s, x, t[n - 1], n - 1, b.offsets[n]);
    }
  }

  /** The all-to-all table gives the squared distance of the two coded vectors. */
  lemma PairSumIsDistance(b: Book, s: Code, x: seq<real>, t: Code, y: seq<real>)
    requires BookOk(b) && IsCode(b, s) && IsCode(b, t) && Decodes(b, s, x) && Decodes(b, t, y)
    ensures PairSum(b, s, t, b.chunks) == SqDist(x, y, b.ndims)
  {
    PairSumIsCodeDist(b, s, x, t, b.chunks);
    CodeDistIsDistance(b, x, t, y);
  }

  /** compute_distances_alltoall */
  method DistancesAllToAll(b: Book, table: seq<real>, src: Code, ids: seq<nat>, count: nat) returns (out: array<real>)
    requires BookOk(b) && IsCode(b, src) && CodesOk(b, ids, count) && |table| == 256 * 256 * b.chunks
    requires forall i: nat, j: nat, c: nat :: i < CENTRES && j < CENTRES && c < b.chunks ==> CellAt(b, table, i, j, c)
    ensures out.Length == count
    ensures forall k: nat :: k < count ==>
      IsCode(b, CodeOf(ids, b.chunks, count, k)) && out[k] == PairSum(b, src, CodeOf(ids, b.chunks, count, k), b.chunks)
  {
    out := new real[count](_ => 0.0);
    forall k: nat | k < count ensures IsCode(b, CodeOf(ids, b.chunks, count, k)) { CodeBounds(b.chunks, count, k); }
    var c: nat := 0;
    while c < b.chunks
      invariant c <= b.chunks && out.Length == count
      invariant forall k: nat :: k < count ==> out[k] == PairSum(b, src, CodeOf(ids, b.chunks, count, k), c)
    {
      var k: nat, c': nat := 0, c + 1;
      while k < count
        invariant k <= count
        invariant forall m: nat :: m < k ==> out[m] == PairSum(b, src, CodeOf(ids, b.chunks, count, m), c')
        invariant forall m: nat :: k <= m < count ==> out[m] == PairSum(b, src, CodeOf(ids, b.chunks, count, m), c)
      {
        CodeBounds(b.chunks, count, k);
        var dst := ids[b.chunks * k + c];
        assert dst == CodeOf(ids, b.chunks, count, k)[c] && CellAt(b, table, src[c], dst, c);
        CellBound(b.chunks, src[c], dst, c);
        out[k] := out[k] + table[Cell(b.chunks, src[c], dst, c)];
        k := k + 1;
      }
      c := c + 1;
    }
  }
}
