/**
 * The pair-sampling schedule of `calibrate_kmers`: which pairs (i, j) of the
 * nseqs input sequences are compared, in what order, and into which result
 * slot each comparison is stored.
 *
 * The aligner and the k-mer distance are not modelled: each is a function
 * parameter of the pair of indices it is applied to.
 */
module Calibrate {

  /** One comparison of sequence i with sequence j. */
  datatype Pair = Pair(i: nat, j: nat)

  /**
   * The loop parameters chosen before any comparison: `cap` is the final
   * value of max_aligns (the length of both result buffers), `nIters` and
   * `stride` are the source's n_iters and stride.
   */
  datatype Schedule = Schedule(cap: nat, nIters: nat, stride: nat)

  function Min(a: nat, b: nat): nat { if a <= b then a else b }

  /** The number of unordered pairs of n sequences, nseqs*(nseqs-1)/2. */
  function Total(n: nat): nat { if n == 0 then 0 else n * (n - 1) / 2 }

  /** The integer square root, searched upwards from r. */
  function ISqrtFrom(x: nat, r: nat): (s: nat)
    requires r * r <= x
    ensures s * s <= x < (s + 1) * (s + 1)
    decreases x - r
  {
    if x < (r + 1) * (r + 1) then r else ISqrtFrom(x, r + 1)
  }

  /** The integer square root: `(int) (2 * sqrt(m))` is ISqrt(4 * m). */
  function ISqrt(x: nat): (s: nat)
    ensures s * s <= x < (s + 1) * (s + 1)
  {
    ISqrtFrom(x, 0)
  }

  lemma ISqrtUnique(x: nat, r: nat)
    requires r * r <= x < (r + 1) * (r + 1)
    ensures ISqrt(x) == r
  {
    var s := ISqrt(x);
    if s < r {
      SquareMonotone(s + 1, r);
    } else if r < s {
      SquareMonotone(r + 1, s);
    }
  }

  lemma SquareMonotone(a: nat, b: nat)
    requires a <= b
    ensures a * a <= b * b
  {
    assert a * a <= a * b <= b * b;
  }

  /**
   * The schedule of calibrate_kmers: with more potential pairs than
   * max_aligns, a stride of nseqs / n_iters with n_iters = ISqrt(4 m) + 2;
   * otherwise every pair, stride 1, and the cap clamped to the pair count.
   */
  function Plan(nseqs: nat, maxAligns: nat): (p: Schedule)
    ensures p.cap == Min(maxAligns, Total(nseqs))
    ensures Total(nseqs) <= maxAligns ==> p.stride == 1 && p.nIters == nseqs
    ensures p.stride == 0 ==> nseqs >= 2 && maxAligns < Total(nseqs)
  {
    if maxAligns < Total(nseqs) then
      var nIters := ISqrt(4 * maxAligns) + 2;
      Schedule(maxAligns, nIters, nseqs / nIters)
    else
      Schedule(Total(nseqs), nseqs, 1)
  }

  /**
   * The comparisons the inner loop makes from column j of row i when `done`
   * pairs are already stored, as the source writes it: a pair is stored
   * first and the cap is tested after, so at least one pair is stored
   * whenever j < n.
   */
  function RowCompared(n: nat, s: nat, cap: nat, i: nat, j: nat, done: nat): (r: seq<Pair>)
    ensures j < n ==> |r| >= 1
    decreases if s == 0 then cap - done else n - j
  {
    if j >= n then []
    else if done + 1 >= cap then [Pair(i, j)]
    else [Pair(i, j)] + RowCompared(n, s, cap, i, j + s, done + 1)
  }

  /**
   * The comparisons the loop nest makes from row i on when `done` pairs are
   * already stored, as written: after each row the outer loop stops once
   * the count has reached the cap. With stride 0 only the cap ends it.
   */
  function Compared(n: nat, s: nat, cap: nat, i: nat, done: nat): seq<Pair>
    requires s == 0 ==> i == 0 && n >= 2
    decreases if s == 0 then cap - done else n - i
  {
    if i >= n then []
    else
      var row := RowCompared(n, s, cap, i, i + 1, done);
      if done + |row| >= cap then row
      else row + Compared(n, s, cap, i + s, done + |row|)
  }

  /** The pairs calibrate_kmers compares, in order, exactly as written. */
  function ComparedAsWritten(nseqs: nat, maxAligns: nat): seq<Pair>
  {
    var p := Plan(nseqs, maxAligns);
    Compared(nseqs, p.stride, p.cap, 0, 0)
  }

  /**
   * The pairs compared once the cap is also tested before the first
   * comparison; this differs from ComparedAsWritten only when the cap is 0.
   */
  /** The pairs the loop nest compares with stride s and cap, cap tested first. */
  function Capped(n: nat, s: nat, cap: nat): seq<Pair>
    requires s == 0 ==> n >= 2
  {
    if cap == 0 then [] else Compared(n, s, cap, 0, 0)
  }

  function Sampled(nseqs: nat, maxAligns: nat): seq<Pair>
  {
    var p := Plan(nseqs, maxAligns);
    Capped(nseqs, p.stride, p.cap)
  }

  // ---------------------------------------------------------------------
  // Reference definitions: the strided grid of pairs without any cap.

  /** Row i of the grid from column j on: j, j + s, ... below n. */
  function Row(n: nat, s: nat, i: nat, j: nat): seq<Pair>
    requires s >= 1
    decreases n - j
  {
    if j >= n then [] else [Pair(i, j)] + Row(n, s, i, j + s)
  }

  /** Rows i, i + s, ... below n, each starting at the column after its row. */
  function Grid(n: nat, s: nat, i: nat): seq<Pair>
    requires s >= 1
    decreases n - i
  {
    if i >= n then [] else Row(n, s, i, i + 1) + Grid(n, s, i + s)
  }

  /** The first k elements of q, or all of q when it is shorter. */
  function Take<T>(q: seq<T>, k: nat): (r: seq<T>)
    ensures |r| == Min(|q|, k) && r == q[..|r|]
  {
    if |q| <= k then q else q[..k]
  }

  /** k copies of x. */
  function Repeat<T>(x: T, k: nat): (r: seq<T>)
    ensures |r| == k
    ensures forall t :: 0 <= t < k ==> r[t] == x
  {
    if k == 0 then [] else [x] + Repeat(x, k - 1)
  }

  /** Row-major order of pairs. */
  predicate Before(p: Pair, q: Pair)
  {
    p.i < q.i || (p.i == q.i && p.j < q.j)
  }

  /** Strictly increasing in row-major order, hence without repetitions. */
  predicate Increasing(q: seq<Pair>)
  {
    forall a, b :: 0 <= a < b < |q| ==> Before(q[a], q[b])
  }

  /** A pair of the strided grid: row a multiple of s, column s-aligned after it. */
  predicate OnGrid(n: nat, s: nat, p: Pair)
    requires s >= 1
  {
    p.i < p.j < n && p.i % s == 0 && (p.j - p.i - 1) % s == 0
  }

  // ---------------------------------------------------------------------
  // Helper facts about sequences and remainders.

  lemma TakeAppend<T>(a: seq<T>, b: seq<T>, k: nat)
    ensures Take(a + b, k) == if k <= |a| then Take(a, k) else a + Take(b, k - |a|)
  {
    if |a| < k < |a| + |b| {
      assert (a + b)[..k] == a + b[..k - |a|];
    }
  }

  lemma IncreasingAppend(x: seq<Pair>, y: seq<Pair>)
    requires Increasing(x) && Increasing(y)
    requires forall p, q :: p in x && q in y ==> Before(p, q)
    ensures Increasing(x + y)
  {
    forall a, b | 0 <= a < b < |x + y| ensures Before((x + y)[a], (x + y)[b]) {
      if b < |x| {
      } else if a >= |x| {
        assert (x + y)[a] == y[a - |x|] && (x + y)[b] == y[b - |x|];
      } else {
        assert (x + y)[a] == x[a] && (x + y)[b] == y[b - |x|];
      }
    }
  }

  /** Division by s is unique: x == s * q + r with 0 <= r < s fixes q and r. */
  lemma DivModUnique(x: int, s: nat, q: int, r: int)
    requires s >= 1 && 0 <= r < s && x == s * q + r
    ensures x / s == q && x % s == r
  {
    var d := q - x / s;
    assert s * d == x % s - r;
    if d >= 1 {
      MulAtLeast(s, d);
      assert false;
    } else if d <= -1 {
      MulAtLeast(s, -d);
      assert false;
    }
  }

  lemma MulAtLeast(s: nat, d: int)
    requires d >= 1
    ensures s * d >= s
  {
    assert s * d == s + s * (d - 1);
  }

  lemma MulPred(s: int, q: int)
    ensures s * (q - 1) == s * q - s
  {
  }

  lemma MultipleDown(x: int, s: nat)
    requires s >= 1 && x > 0 && x % s == 0
    ensures x >= s && (x - s) % s == 0
  {
    var q := x / s;
    assert x == s * q;
    if q <= 0 {
      MulAtLeast(s, 1 - q);
      MulPred(s, 1 - q);
      assert false;
    }
    MulPred(s, q);
    MulAtLeast(s, q);
    DivModUnique(x - s, s, q - 1, 0);
  }

  lemma MultipleUp(x: int, s: nat)
    requires s >= 1 && x >= s && (x - s) % s == 0
    ensures x % s == 0
  {
    var q := (x - s) / s;
    assert x - s == s * q;
    MulPred(s, q + 1);
    DivModUnique(x, s, q + 1, 0);
  }

  /** A non-negative multiple of s is 0 or s more than a multiple of s. */
  lemma MultipleStep(x: int, s: nat)
    requires s >= 1 && x >= 0
    ensures x % s == 0 <==> x == 0 || (x >= s && (x - s) % s == 0)
  {
    if x % s == 0 && x != 0 {
      MultipleDown(x, s);
    }
    if x >= s && (x - s) % s == 0 {
      MultipleUp(x, s);
    }
  }

  // ---------------------------------------------------------------------
  // The grid: membership, order, size.

  lemma {:induction false} RowMembers(n: nat, s: nat, i: nat, j: nat, p: Pair)
    requires s >= 1
    ensures p in Row(n, s, i, j) <==> p.i == i && j <= p.j < n && (p.j - j) % s == 0
    decreases n - j
  {
    if j < n {
      RowMembers(n, s, i, j + s, p);
      if p.j >= j {
        MultipleStep(p.j - j, s);
      }
    }
  }

  lemma {:induction false} GridMembers(n: nat, s: nat, i: nat, p: Pair)
    requires s >= 1
    ensures p in Grid(n, s, i) <==>
      i <= p.i < p.j < n && (p.i - i) % s == 0 && (p.j - p.i - 1) % s == 0
    decreases n - i
  {
    if i < n {
      RowMembers(n, s, i, i + 1, p);
      GridMembers(n, s, i + s, p);
      if p.i >= i {
        MultipleStep(p.i - i, s);
      }
    }
  }

  lemma {:induction false} RowIncreasing(n: nat, s: nat, i: nat, j: nat)
    requires s >= 1
    ensures Increasing(Row(n, s, i, j))
    decreases n - j
  {
    if j < n {
      RowIncreasing(n, s, i, j + s);
      forall q | q in Row(n, s, i, j + s) ensures Before(Pair(i, j), q) {
        RowMembers(n, s, i, j + s, q);
      }
      IncreasingAppend([Pair(i, j)], Row(n, s, i, j + s));
    }
  }

  lemma {:induction false} GridIncreasing(n: nat, s: nat, i: nat)
    requires s >= 1
    ensures Increasing(Grid(n, s, i))
    decreases n - i
  {
    if i < n {
      RowIncreasing(n, s, i, i + 1);
      GridIncreasing(n, s, i + s);
      forall p, q | p in Row(n, s, i, i + 1) && q in Grid(n, s, i + s) ensures Before(p, q) {
        RowMembers(n, s, i, i + 1, p);
        GridMembers(n, s, i + s, q);
      }
      IncreasingAppend(Row(n, s, i, i + 1), Grid(n, s, i + s));
    }
  }

  lemma {:induction false} RowLength(n: nat, i: nat, j: nat)
    requires j <= n
    ensures |Row(n, 1, i, j)| == n - j
    decreases n - j
  {
    if j < n {
      RowLength(n, i, j + 1);
    }
  }

  lemma TotalStep(k: nat)
    ensures Total(k + 1) == k + Total(k)
  {
    if k > 0 {
      assert (k + 1) * k == k * (k - 1) + 2 * k;
    }
  }

  /** With stride 1 the rows from i on hold Total(n - i) pairs. */
  lemma {:induction false} GridLength(n: nat, i: nat)
    requires i <= n
    ensures |Grid(n, 1, i)| == Total(n - i)
    decreases n - i
  {
    if i < n {
      RowLength(n, i, i + 1);
      GridLength(n, i + 1);
      TotalStep(n - i - 1);
    }
  }

  /** A row whose first c columns j, j + s, ..., j + (c - 1) * s are below n has c pairs at least. */
  lemma {:induction false} RowAtLeast(n: nat, s: nat, i: nat, j: nat, c: nat)
    requires s >= 1
    requires c >= 1 ==> j + (c - 1) * s < n
    ensures |Row(n, s, i, j)| >= c
    decreases c
  {
    if c >= 1 {
      assert (c - 1) * s == (c - 2) * s + s;
      RowAtLeast(n, s, i, j + s, c - 1);
    }
  }

  /**
   * When t rows of stride s fit below n (t * s <= n), the grid from row k * s
   * holds at least Total(t - k) pairs: row k * s has t - k - 1 columns or more.
   */
  lemma {:induction false} GridAtLeast(n: nat, s: nat, t: nat, k: nat)
    requires s >= 1 && t * s <= n && k <= t
    ensures |Grid(n, s, k * s)| >= Total(t - k)
    decreases t - k
  {
    if k < t {
      assert (k + 1) * s == k * s + s;
      assert (k + 1) * s <= t * s;
      if t - k - 1 >= 1 {
        assert (t - k - 2) * s + k * s == (t - 2) * s;
        assert (t - 2) * s + s == t * s - s;
      }
      RowAtLeast(n, s, k * s, k * s + 1, t - k - 1);
      GridAtLeast(n, s, t, k + 1);
      TotalStep(t - k - 1);
    }
  }

  // ---------------------------------------------------------------------
  // The capped loop nest against the grid.

  lemma {:induction false} RowComparedIsTake(n: nat, s: nat, cap: nat, i: nat, j: nat, done: nat)
    requires s >= 1 && done < cap
    ensures RowCompared(n, s, cap, i, j, done) == Take(Row(n, s, i, j), cap - done)
    decreases n - j
  {
    if j < n && done + 1 < cap {
      RowComparedIsTake(n, s, cap, i, j + s, done + 1);
      TakeAppend([Pair(i, j)], Row(n, s, i, j + s), cap - done);
    } else if j < n {
      TakeAppend([Pair(i, j)], Row(n, s, i, j + s), cap - done);
    }
  }

  lemma {:induction false} ComparedIsTake(n: nat, s: nat, cap: nat, i: nat, done: nat)
    requires s >= 1 && done < cap
    ensures Compared(n, s, cap, i, done) == Take(Grid(n, s, i), cap - done)
    decreases n - i
  {
    if i < n {
      var row := RowCompared(n, s, cap, i, i + 1, done);
      RowComparedIsTake(n, s, cap, i, i + 1, done);
      TakeAppend(Row(n, s, i, i + 1), Grid(n, s, i + s), cap - done);
      if done + |row| < cap {
        ComparedIsTake(n, s, cap, i + s, done + |row|);
      }
    }
  }

  lemma {:induction false} RowComparedZeroStride(n: nat, cap: nat, j: nat, done: nat)
    requires j < n && done < cap
    ensures RowCompared(n, 0, cap, 0, j, done) == Repeat(Pair(0, j), cap - done)
    decreases cap - done
  {
    if done + 1 < cap {
      RowComparedZeroStride(n, cap, j, done + 1);
    }
  }

  // ---------------------------------------------------------------------
  // Properties of the schedule.

  /** The claim of the comment at n_iters: n_iters*(n_iters-1)/2 > max_aligns. */
  lemma NItersExceedsCap(nseqs: nat, maxAligns: nat)
    requires maxAligns < Total(nseqs)
    ensures Plan(nseqs, maxAligns).nIters >= 2
    ensures Plan(nseqs, maxAligns).nIters * (Plan(nseqs, maxAligns).nIters - 1) / 2 > maxAligns
  {
    var r := ISqrt(4 * maxAligns);
    var t := r + 2;
    assert t == Plan(nseqs, maxAligns).nIters;
    assert (r + 1) * (r + 1) >= 4 * maxAligns + 1;
    assert t * (t - 1) == (r + 1) * (r + 1) + (r + 1);
    assert t * (t - 1) >= 2 * maxAligns + 2;
  }

  /**
   * When max_aligns covers every pair: the cap is clamped to the pair count,
   * the stride is 1, every pair i < j < nseqs is compared exactly once in
   * row-major order, and the count reaches the cap (no warning).
   */
  lemma FullEnumeration(nseqs: nat, maxAligns: nat)
    requires Total(nseqs) <= maxAligns
    ensures Plan(nseqs, maxAligns).cap == Total(nseqs) && Plan(nseqs, maxAligns).stride == 1
    ensures Sampled(nseqs, maxAligns) == Grid(nseqs, 1, 0)
    ensures |Sampled(nseqs, maxAligns)| == Plan(nseqs, maxAligns).cap
    ensures Increasing(Sampled(nseqs, maxAligns))
    ensures forall p :: p in Sampled(nseqs, maxAligns) <==> p.i < p.j < nseqs
  {
    var cap := Total(nseqs);
    GridLength(nseqs, 0);
    GridIncreasing(nseqs, 1, 0);
    forall p ensures p in Grid(nseqs, 1, 0) <==> p.i < p.j < nseqs {
      GridMembers(nseqs, 1, 0, p);
    }
    if cap > 0 {
      ComparedIsTake(nseqs, 1, cap, 0, 0);
    } else {
      assert Grid(nseqs, 1, 0) == [];
    }
  }

  /**
   * With a stride of at least 1 the sample is the strided grid cut at the
   * cap: every pair has i < j < nseqs, i a multiple of the stride and
   * j = i + 1 + k * stride; no pair repeats; and the grid always holds more
   * pairs than the cap, so exactly cap pairs are produced.
   */
  lemma StridedSample(nseqs: nat, maxAligns: nat)
    requires Plan(nseqs, maxAligns).stride >= 1
    ensures var p := Plan(nseqs, maxAligns);
      Sampled(nseqs, maxAligns) == Take(Grid(nseqs, p.stride, 0), p.cap)
    ensures forall q :: q in Sampled(nseqs, maxAligns) ==>
      OnGrid(nseqs, Plan(nseqs, maxAligns).stride, q)
    ensures Increasing(Sampled(nseqs, maxAligns))
    ensures |Sampled(nseqs, maxAligns)| == Plan(nseqs, maxAligns).cap
  {
    var p := Plan(nseqs, maxAligns);
    var g := Grid(nseqs, p.stride, 0);
    if p.cap > 0 {
      ComparedIsTake(nseqs, p.stride, p.cap, 0, 0);
    }
    var t := Sampled(nseqs, maxAligns);
    assert t == Take(g, p.cap);
    forall q | q in t ensures OnGrid(nseqs, p.stride, q) {
      GridMembers(nseqs, p.stride, 0, q);
    }
    GridIncreasing(nseqs, p.stride, 0);
    GridCoversCap(nseqs, maxAligns);
  }

  /** The strided grid holds at least cap pairs. */
  lemma GridCoversCap(nseqs: nat, maxAligns: nat)
    requires Plan(nseqs, maxAligns).stride >= 1
    ensures |Grid(nseqs, Plan(nseqs, maxAligns).stride, 0)| >= Plan(nseqs, maxAligns).cap
  {
    var p := Plan(nseqs, maxAligns);
    if Total(nseqs) <= maxAligns {
      GridLength(nseqs, 0);
    } else {
      var t, s := p.nIters, p.stride;
      NItersExceedsCap(nseqs, maxAligns);
      assert s == nseqs / t;
      assert t * s <= nseqs;
      GridAtLeast(nseqs, s, t, 0);
      assert 0 * s == 0;
      assert Total(t) == t * (t - 1) / 2;
    }
  }

  /**
   * With stride 0 (n_iters > nseqs) the loops never advance: pair (0, 1) is
   * compared max_aligns times and only the cap ends the loops.
   */
  lemma ZeroStrideSample(nseqs: nat, maxAligns: nat)
    requires Plan(nseqs, maxAligns).stride == 0
    ensures Plan(nseqs, maxAligns).cap == maxAligns >= 1
    ensures Sampled(nseqs, maxAligns) == Repeat(Pair(0, 1), maxAligns)
  {
    RowComparedZeroStride(nseqs, maxAligns, 1, 0);
  }

  /** Stride 0 does occur: 10 sequences and a cap of 44 of the 45 pairs. */
  lemma ZeroStrideOccurs()
    ensures Plan(10, 44).stride == 0
    ensures Sampled(10, 44) == Repeat(Pair(0, 1), 44)
  {
    ISqrtUnique(176, 13);
    ZeroStrideSample(10, 44);
  }

  /** Ten sequences and a cap of 5: stride 1, and exactly 5 pairs are produced. */
  lemma TenSequencesFivePairs()
    ensures Plan(10, 5).nIters == 6 && Plan(10, 5).stride == 1
    ensures |Sampled(10, 5)| == 5
  {
    ISqrtUnique(20, 4);
    SampleReachesCap(10, 5);
  }

  /**
   * The sample always fills the buffer: whatever nseqs and max_aligns, the
   * loops stop by the cap or after exactly cap pairs.
   */
  lemma SampleReachesCap(nseqs: nat, maxAligns: nat)
    ensures |Sampled(nseqs, maxAligns)| == Plan(nseqs, maxAligns).cap
  {
    var p := Plan(nseqs, maxAligns);
    if p.cap == 0 {
      assert Sampled(nseqs, maxAligns) == [];
    } else if p.stride == 0 {
      ZeroStrideSample(nseqs, maxAligns);
    } else {
      StridedSample(nseqs, maxAligns);
    }
  }

  /** Every stored pair lands in a slot below the buffer length. */
  lemma SampledWithinCap(nseqs: nat, maxAligns: nat)
    ensures |Sampled(nseqs, maxAligns)| <= Plan(nseqs, maxAligns).cap <= maxAligns
  {
    SampleReachesCap(nseqs, maxAligns);
  }

  /**
   * As written, max_aligns == 0 with at least two sequences stores pair
   * (0, 1) although both buffers have length 0.
   */
  lemma ZeroCapOverrun(nseqs: nat)
    requires nseqs >= 2
    ensures Plan(nseqs, 0).cap == 0
    ensures ComparedAsWritten(nseqs, 0) == [Pair(0, 1)]
  {
    assert ISqrt(0) == 0;
  }

  /** Testing the cap first changes nothing unless the cap is 0. */
  lemma AsWrittenAgrees(nseqs: nat, maxAligns: nat)
    requires Plan(nseqs, maxAligns).cap >= 1 || nseqs < 2
    ensures ComparedAsWritten(nseqs, maxAligns) == Sampled(nseqs, maxAligns)
  {
  }

  // ---------------------------------------------------------------------
  // The loop nest itself.

  /** One step of the inner loop: the pair (i, j) is stored, then the cap is tested. */
  lemma RowComparedStep(n: nat, s: nat, cap: nat, i: nat, j: nat, done: nat)
    requires j < n
    ensures RowCompared(n, s, cap, i, j, done) ==
      [Pair(i, j)] + if done + 1 >= cap then [] else RowCompared(n, s, cap, i, j + s, done + 1)
  {
  }

  /** One step of the outer loop: a whole row, then the cap is tested. */
  lemma ComparedStep(n: nat, s: nat, cap: nat, i: nat, done: nat)
    requires s == 0 ==> i == 0 && n >= 2
    requires i < n
    ensures var row := RowCompared(n, s, cap, i, i + 1, done);
      Compared(n, s, cap, i, done) ==
        row + if done + |row| >= cap then [] else Compared(n, s, cap, i + s, done + |row|)
  {
  }

  /**
   * calibrate_kmers: allocates both result buffers with max_aligns slots
   * (zero-filled), walks i by the stride and j from i + 1 by the stride,
   * stores the two distances of each compared pair in slot npairs, and
   * stops both loops once npairs reaches max_aligns. `alignDist(i, j)` is
   * the aligner's substitution count over the shorter length and
   * `kmerDist(i, j)` the k-mer distance of sequences i and j. `warned` is
   * the under-sampling warning.
   */
  method CalibrateKmers(nseqs: nat, maxAligns: nat,
                        alignDist: (nat, nat) -> real, kmerDist: (nat, nat) -> real)
    returns (adist: array<real>, kdist: array<real>, npairs: nat, warned: bool)
    ensures fresh(adist) && fresh(kdist)
    ensures adist.Length == kdist.Length == Plan(nseqs, maxAligns).cap
    ensures npairs == |Sampled(nseqs, maxAligns)| <= adist.Length
    ensures forall k :: 0 <= k < |Sampled(nseqs, maxAligns)| ==>
      var q := Sampled(nseqs, maxAligns)[k];
      adist[k] == alignDist(q.i, q.j) && kdist[k] == kmerDist(q.i, q.j)
    ensures forall k :: npairs <= k < adist.Length ==> adist[k] == 0.0 && kdist[k] == 0.0
    ensures warned <==> npairs != adist.Length
    ensures !warned
  {
    var plan := Plan(nseqs, maxAligns);
    adist := new real[plan.cap](_ => 0.0);
    kdist := new real[plan.cap](_ => 0.0);
    assert adist[..] == Buffer([], alignDist, plan.cap);
    assert kdist[..] == Buffer([], kmerDist, plan.cap);
    ghost var seen;
    npairs, seen := CompareAll(nseqs, plan.stride, adist, kdist, alignDist, kmerDist);
    assert seen == Sampled(nseqs, maxAligns);
    SampledWithinCap(nseqs, maxAligns);
    SampleReachesCap(nseqs, maxAligns);
    BufferAt(seen, alignDist, plan.cap);
    BufferAt(seen, kmerDist, plan.cap);
    warned := npairs != plan.cap;
  }

  /** A result buffer of cap slots holding f of each pair in seen, then zeros. */
  function Buffer(seen: seq<Pair>, f: (nat, nat) -> real, cap: nat): seq<real>
    requires |seen| <= cap
  {
    seq(cap, k requires 0 <= k < cap => if k < |seen| then f(seen[k].i, seen[k].j) else 0.0)
  }

  lemma BufferAt(seen: seq<Pair>, f: (nat, nat) -> real, cap: nat)
    requires |seen| <= cap
    ensures |Buffer(seen, f, cap)| == cap
    ensures forall k :: 0 <= k < |seen| ==> Buffer(seen, f, cap)[k] == f(seen[k].i, seen[k].j)
    ensures forall k :: |seen| <= k < cap ==> Buffer(seen, f, cap)[k] == 0.0
  {
  }

  /** Storing f of one more pair in the next slot. */
  lemma BufferExtend(seen: seq<Pair>, p: Pair, f: (nat, nat) -> real, cap: nat)
    requires |seen| < cap
    ensures Buffer(seen, f, cap)[|seen| := f(p.i, p.j)] == Buffer(seen + [p], f, cap)
  {
  }

  /** After a row that does not fill the buffer, the outer loop continues at row i + s. */
  lemma OuterContinues(n: nat, s: nat, cap: nat, i: nat, done: nat,
                       before: seq<Pair>, row: seq<Pair>, target: seq<Pair>)
    requires s == 0 ==> i == 0 && n >= 2
    requires i < n && done < cap && before + Compared(n, s, cap, i, done) == target
    requires row == RowCompared(n, s, cap, i, i + 1, done)
    ensures done + |row| < cap ==> (before + row) + Compared(n, s, cap, i + s, done + |row|) == target
  {
  }

  /** A row that fills the buffer ends the sample. */
  lemma OuterCapped(n: nat, s: nat, cap: nat, i: nat, done: nat,
                    before: seq<Pair>, row: seq<Pair>, target: seq<Pair>)
    requires s == 0 ==> i == 0 && n >= 2
    requires i < n && done < cap && before + Compared(n, s, cap, i, done) == target
    requires row == RowCompared(n, s, cap, i, i + 1, done)
    ensures done + |row| >= cap ==> before + row == target
  {
  }

  /**
   * The loop nest of calibrate_kmers over zero-filled buffers of cap slots:
   * `seen` is the ghost record of the pairs compared, in order.
   */
  method CompareAll(nseqs: nat, stride: nat, adist: array<real>, kdist: array<real>,
                    alignDist: (nat, nat) -> real, kmerDist: (nat, nat) -> real)
    returns (npairs: nat, ghost seen: seq<Pair>)
    requires stride == 0 ==> nseqs >= 2
    requires adist != kdist && adist.Length == kdist.Length
    requires adist[..] == Buffer([], alignDist, adist.Length)
    requires kdist[..] == Buffer([], kmerDist, adist.Length)
    modifies adist, kdist
    ensures seen == Capped(nseqs, stride, adist.Length) && npairs == |seen| <= adist.Length
    ensures adist[..] == Buffer(seen, alignDist, adist.Length)
    ensures kdist[..] == Buffer(seen, kmerDist, adist.Length)
  {
    var cap := adist.Length;
    ghost var target := Capped(nseqs, stride, cap);
    npairs, seen := 0, [];
    var i := 0;
    while i < nseqs && npairs < cap
      invariant stride == 0 ==> i == 0
      invariant npairs == |seen| <= cap
      invariant npairs < cap ==> seen + Compared(nseqs, stride, cap, i, npairs) == target
      invariant npairs >= cap ==> seen == target
      invariant adist[..] == Buffer(seen, alignDist, cap)
      invariant kdist[..] == Buffer(seen, kmerDist, cap)
      decreases if stride == 0 then cap - npairs else nseqs - i
    {
      ghost var before, done := seen, npairs;
      ghost var row := RowCompared(nseqs, stride, cap, i, i + 1, done);
      npairs, seen := CompareRow(nseqs, stride, i, adist, kdist, alignDist, kmerDist, npairs, seen);
      OuterContinues(nseqs, stride, cap, i, done, before, row, target);
      OuterCapped(nseqs, stride, cap, i, done, before, row, target);
      i := i + stride;
    }
  }

  /** The inner loop of calibrate_kmers over row i, from slot npairs0 on. */
  method CompareRow(nseqs: nat, stride: nat, i: nat, adist: array<real>, kdist: array<real>,
                    alignDist: (nat, nat) -> real, kmerDist: (nat, nat) -> real,
                    npairs0: nat, ghost seen0: seq<Pair>)
    returns (npairs: nat, ghost seen: seq<Pair>)
    requires stride == 0 ==> i == 0
    requires npairs0 == |seen0| < adist.Length
    requires adist != kdist && adist.Length == kdist.Length
    requires adist[..] == Buffer(seen0, alignDist, adist.Length)
    requires kdist[..] == Buffer(seen0, kmerDist, adist.Length)
    modifies adist, kdist
    ensures seen == seen0 + RowCompared(nseqs, stride, adist.Length, i, i + 1, npairs0)
    ensures npairs == |seen| <= adist.Length
    ensures adist[..] == Buffer(seen, alignDist, adist.Length)
    ensures kdist[..] == Buffer(seen, kmerDist, adist.Length)
  {
    var cap := adist.Length;
    ghost var row := RowCompared(nseqs, stride, cap, i, i + 1, npairs0);
    npairs, seen := npairs0, seen0;
    var j := i + 1;
    while j < nseqs && npairs < cap
      invariant stride == 0 ==> j == 1
      invariant npairs == |seen| <= cap
      invariant npairs < cap ==> seen + RowCompared(nseqs, stride, cap, i, j, npairs) == seen0 + row
      invariant npairs >= cap ==> seen == seen0 + row
      invariant adist[..] == Buffer(seen, alignDist, cap)
      invariant kdist[..] == Buffer(seen, kmerDist, cap)
      decreases if stride == 0 then cap - npairs else nseqs - j
    {
      RowComparedStep(nseqs, stride, cap, i, j, npairs);
      BufferExtend(seen, Pair(i, j), alignDist, cap);
      BufferExtend(seen, Pair(i, j), kmerDist, cap);
      adist[npairs] := alignDist(i, j);
      kdist[npairs] := kmerDist(i, j);
      assert seen + RowCompared(nseqs, stride, cap, i, j, npairs)
          == (seen + [Pair(i, j)])
           + if npairs + 1 >= cap then [] else RowCompared(nseqs, stride, cap, i, j + stride, npairs + 1);
      seen := seen + [Pair(i, j)];
      npairs := npairs + 1;
      j := j + stride;
    }
  }
}
