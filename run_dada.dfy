/**
 * The call order of `run_dada` over the clustering state, whose operations
 * are not modelled: each call is recorded as an `Op`, and the values the
 * successive calls of b_bud return are a parameter. The loop goes on while
 * the last b_bud call returned a non-zero index.
 */
module RunDada {

  /** A call into the clustering state, with the loop arguments it receives. */
  datatype Op =
    | New
    | FamUpdate
    | PUpdate
    | Bud
    | ConsensusUpdate
    | LambdaUpdate(useKmers: bool, kdistCutoff: real)
    | Shuffle

  /** The calls before the loop: create, organise families, p-values, first bud. */
  function Start(): seq<Op> { [New, FamUpdate, PUpdate, Bud] }

  /** The calls of one round of the loop, ending with the next bud. */
  function Round(useKmers: bool, kdistCutoff: real): seq<Op> {
    [ConsensusUpdate, LambdaUpdate(useKmers, kdistCutoff), Shuffle, ConsensusUpdate,
     FamUpdate, PUpdate, Bud]
  }

  /** The calls of n rounds. */
  function Rounds(useKmers: bool, kdistCutoff: real, n: nat): seq<Op> {
    if n == 0 then [] else Rounds(useKmers, kdistCutoff, n - 1) + Round(useKmers, kdistCutoff)
  }

  /** The whole call sequence of a run of n rounds. */
  function Trace(useKmers: bool, kdistCutoff: real, n: nat): seq<Op> {
    Start() + Rounds(useKmers, kdistCutoff, n)
  }

  /** The index of the first b_bud call that returns 0. */
  function FirstZero(buds: seq<int>): (n: nat)
    requires 0 in buds
    ensures n < |buds| && buds[n] == 0
    ensures forall k :: 0 <= k < n ==> buds[k] != 0
  {
    if buds[0] == 0 then 0 else 1 + FirstZero(buds[1..])
  }

  /**
   * run_dada's call sequence: the set-up calls and the first bud, then a
   * round for every b_bud result that was non-zero, stopping at the first 0.
   * `buds[k]` is the value the k-th call of b_bud returns; any non-zero
   * value, negative ones included, continues the loop.
   */
  method Run(useKmers: bool, kdistCutoff: real, buds: seq<int>) returns (trace: seq<Op>, rounds: nat)
    requires 0 in buds
    ensures rounds == FirstZero(buds)
    ensures trace == Trace(useKmers, kdistCutoff, rounds)
  {
    trace := Start();
    rounds := 0;
    var newi := buds[0];
    while newi != 0
      invariant rounds <= FirstZero(buds)
      invariant newi == buds[rounds]
      invariant trace == Trace(useKmers, kdistCutoff, rounds)
      decreases FirstZero(buds) - rounds
    {
      trace := trace + Round(useKmers, kdistCutoff);
      rounds := rounds + 1;
      newi := buds[rounds];
    }
  }

  /** Every round but the set-up adds seven calls. */
  lemma {:induction false} TraceLength(useKmers: bool, kdistCutoff: real, n: nat)
    ensures |Trace(useKmers, kdistCutoff, n)| == 4 + 7 * n
  {
    if n > 0 {
      TraceLength(useKmers, kdistCutoff, n - 1);
    }
  }

  /**
   * b_bud is called once before the loop and once at the end of every round:
   * exactly the calls at positions 3, 10, 17, ... are calls of b_bud.
   */
  lemma {:induction false} BudPositions(useKmers: bool, kdistCutoff: real, n: nat)
    ensures |Trace(useKmers, kdistCutoff, n)| == 4 + 7 * n
    ensures forall p :: 0 <= p < 4 + 7 * n ==> (Trace(useKmers, kdistCutoff, n)[p] == Bud <==> p % 7 == 3)
  {
    TraceLength(useKmers, kdistCutoff, n);
    if n > 0 {
      var before, r := Trace(useKmers, kdistCutoff, n - 1), Round(useKmers, kdistCutoff);
      BudPositions(useKmers, kdistCutoff, n - 1);
      TraceStep(useKmers, kdistCutoff, n);
      forall p | 4 + 7 * (n - 1) <= p < 4 + 7 * n
        ensures Trace(useKmers, kdistCutoff, n)[p] == Bud <==> p % 7 == 3
      {
        var q := p - (4 + 7 * (n - 1));
        assert Trace(useKmers, kdistCutoff, n)[p] == r[q];
        assert p == 7 * n + (q - 3);
        ModSeven(n, q);
      }
    }
  }

  lemma ModSeven(n: nat, q: int)
    requires 0 <= q < 7
    ensures (7 * n + (q - 3)) % 7 == 3 <==> q == 6
  {
    if q >= 3 {
      assert (7 * n + (q - 3)) % 7 == q - 3;
    } else {
      assert 7 * n + (q - 3) == 7 * (n - 1) + (q + 4);
      assert (7 * n + (q - 3)) % 7 == q + 4;
    }
  }

  lemma TraceStep(useKmers: bool, kdistCutoff: real, n: nat)
    requires n > 0
    ensures Trace(useKmers, kdistCutoff, n) ==
      Trace(useKmers, kdistCutoff, n - 1) + Round(useKmers, kdistCutoff)
  {
  }

  /** Round k (from 0) occupies the seven calls from position 4 + 7k. */
  lemma {:induction false} RoundAt(useKmers: bool, kdistCutoff: real, n: nat, k: nat)
    requires k < n
    ensures |Trace(useKmers, kdistCutoff, n)| == 4 + 7 * n
    ensures Trace(useKmers, kdistCutoff, n)[4 + 7 * k .. 11 + 7 * k] == Round(useKmers, kdistCutoff)
  {
    TraceLength(useKmers, kdistCutoff, n);
    TraceLength(useKmers, kdistCutoff, n - 1);
    assert Trace(useKmers, kdistCutoff, n) ==
      Trace(useKmers, kdistCutoff, n - 1) + Round(useKmers, kdistCutoff);
    if k < n - 1 {
      RoundAt(useKmers, kdistCutoff, n - 1, k);
    }
  }

  /** A run begins by creating the state and ends with the b_bud call that returned 0. */
  lemma {:induction false} TraceEnds(useKmers: bool, kdistCutoff: real, n: nat)
    ensures |Trace(useKmers, kdistCutoff, n)| >= 4
    ensures Trace(useKmers, kdistCutoff, n)[0] == New
    ensures Trace(useKmers, kdistCutoff, n)[|Trace(useKmers, kdistCutoff, n)| - 1] == Bud
  {
    TraceLength(useKmers, kdistCutoff, n);
    if n > 0 {
      assert Trace(useKmers, kdistCutoff, n) ==
        Trace(useKmers, kdistCutoff, n - 1) + Round(useKmers, kdistCutoff);
      TraceEnds(useKmers, kdistCutoff, n - 1);
    }
  }
}
