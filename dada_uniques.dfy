/**
 * The input gate of `dada_uniques`: the checks made, in order, on the R
 * arguments before any clustering runs, and the entry-wise copy of the
 * score and error matrices into 4x4 arrays.
 *
 * A successful gate yields the argument record of run_dada; the clustering
 * itself and the construction of the uniques table are not modelled here.
 */
module DadaUniques {

  datatype Result<T, E> = Success(value: T) | Failure(error: E)

  /** An R numeric matrix: nrow x ncol cells stored column after column. */
  datatype Matrix = Matrix(nrow: nat, ncol: nat, data: seq<real>)

  /** Every R matrix holds exactly nrow * ncol cells. */
  type RMatrix = m: Matrix | |m.data| == m.nrow * m.ncol witness Matrix(0, 0, [])

  lemma CellInRange(i: nat, j: nat, nrow: nat, ncol: nat)
    requires i < nrow && j < ncol
    ensures i + j * nrow < nrow * ncol
  {
    assert j * nrow <= (ncol - 1) * nrow;
  }

  /** The cell m(i, j) of an R matrix (column-major storage). */
  function At(m: RMatrix, i: nat, j: nat): real
    requires i < m.nrow && j < m.ncol
  {
    CellInRange(i, j, m.nrow, m.ncol);
    m.data[i + j * m.nrow]
  }

  /** The arguments of dada_uniques as R hands them over. */
  datatype Input = Input(seqs: seq<string>, abundances: seq<int>,
                         err: RMatrix, score: RMatrix, gap: seq<real>,
                         useKmers: seq<real>, kdistCutoff: seq<real>,
                         omegaA: seq<real>, useSingletons: seq<bool>,
                         omegaS: seq<real>)

  /** The arguments run_dada is called with. */
  datatype Params = Params(seqs: seq<string>, abundances: seq<int>,
                           score: seq<seq<real>>, err: seq<seq<real>>,
                           gap: real, useKmers: bool, kdistCutoff: real,
                           omegaA: real, useSingletons: bool, omegaS: real)

  /** The checks of dada_uniques; each names the condition that rejects the input. */
  datatype Check =
    | LengthMismatch
    | ScoreMalformed
    | ErrMalformed
    | GapNotScalar
    | UseKmersNotScalar
    | KdistCutoffNotScalar
    | OmegaANotScalar
    | UseSingletonsNotScalar
    | OmegaSNotScalar

  /** The position of each check in the order the source makes them. */
  function Rank(c: Check): nat {
    match c
    case LengthMismatch => 0
    case ScoreMalformed => 1
    case ErrMalformed => 2
    case GapNotScalar => 3
    case UseKmersNotScalar => 4
    case KdistCutoffNotScalar => 5
    case OmegaANotScalar => 6
    case UseSingletonsNotScalar => 7
    case OmegaSNotScalar => 8
  }

  predicate Square4(m: RMatrix) { m.nrow == 4 && m.ncol == 4 }

  /** Whether check c rejects the input. */
  predicate Fails(input: Input, c: Check) {
    match c
    case LengthMismatch => |input.seqs| != |input.abundances|
    case ScoreMalformed => !Square4(input.score)
    case ErrMalformed => !Square4(input.err)
    case GapNotScalar => |input.gap| != 1
    case UseKmersNotScalar => |input.useKmers| != 1
    case KdistCutoffNotScalar => |input.kdistCutoff| != 1
    case OmegaANotScalar => |input.omegaA| != 1
    case UseSingletonsNotScalar => |input.useSingletons| != 1
    case OmegaSNotScalar => |input.omegaS| != 1
  }

  /** The 4x4 C array `c[i][j] = m(i, j)` as rows of values. */
  function Rows(m: RMatrix): seq<seq<real>>
    requires Square4(m)
  {
    seq(4, i requires 0 <= i < 4 => seq(4, j requires 0 <= j < 4 => At(m, i, j)))
  }

  /**
   * The gate: the first check that fails, in source order, or the argument
   * record of run_dada. A numeric use_kmers is true when its value is non-zero.
   */
  function Validate(input: Input): Result<Params, Check>
  {
    if |input.seqs| != |input.abundances| then Failure(LengthMismatch)
    else if !Square4(input.score) then Failure(ScoreMalformed)
    else if !Square4(input.err) then Failure(ErrMalformed)
    else if |input.gap| != 1 then Failure(GapNotScalar)
    else if |input.useKmers| != 1 then Failure(UseKmersNotScalar)
    else if |input.kdistCutoff| != 1 then Failure(KdistCutoffNotScalar)
    else if |input.omegaA| != 1 then Failure(OmegaANotScalar)
    else if |input.useSingletons| != 1 then Failure(UseSingletonsNotScalar)
    else if |input.omegaS| != 1 then Failure(OmegaSNotScalar)
    else
      Success(Params(input.seqs, input.abundances, Rows(input.score), Rows(input.err),
                     input.gap[0], input.useKmers[0] != 0.0, input.kdistCutoff[0],
                     input.omegaA[0], input.useSingletons[0], input.omegaS[0]))
  }

  /** The gate rejects the input exactly when some check fails. */
  lemma RejectsIffSomeCheckFails(input: Input)
    ensures Validate(input).Failure? <==> exists c :: Fails(input, c)
  {
    if Validate(input).Failure? {
      assert Fails(input, Validate(input).error);
    } else {
      forall c ensures !Fails(input, c) {
        match c
        case LengthMismatch =>
        case ScoreMalformed =>
        case ErrMalformed =>
        case GapNotScalar =>
        case UseKmersNotScalar =>
        case KdistCutoffNotScalar =>
        case OmegaANotScalar =>
        case UseSingletonsNotScalar =>
        case OmegaSNotScalar =>
      }
    }
  }

  /** A rejection names a failing check, and no check made before it fails. */
  lemma RejectsAtFirstFailure(input: Input)
    requires Validate(input).Failure?
    ensures Fails(input, Validate(input).error)
    ensures forall c :: Rank(c) < Rank(Validate(input).error) ==> !Fails(input, c)
  {
  }

  /**
   * An accepted input passes on the sequences and abundances unchanged, the
   * matrices entry for entry, and the first element of each scalar argument
   * (use_kmers as "non-zero").
   */
  lemma AcceptsWithCopies(input: Input)
    requires Validate(input).Success?
    ensures Square4(input.score) && Square4(input.err)
    ensures var p := Validate(input).value;
      && p.seqs == input.seqs && p.abundances == input.abundances
      && |p.score| == 4 && |p.err| == 4
      && (forall i, j :: 0 <= i < 4 && 0 <= j < 4 ==>
            |p.score[i]| == 4 && p.score[i][j] == At(input.score, i, j))
      && (forall i, j :: 0 <= i < 4 && 0 <= j < 4 ==>
            |p.err[i]| == 4 && p.err[i][j] == At(input.err, i, j))
      && p.gap == input.gap[0]
      && p.useKmers == (input.useKmers[0] != 0.0)
      && p.kdistCutoff == input.kdistCutoff[0]
      && p.omegaA == input.omegaA[0]
      && p.useSingletons == input.useSingletons[0]
      && p.omegaS == input.omegaS[0]
  {
  }

  /** Copies a 4x4 R matrix entry by entry into a C-style 4x4 array. */
  method CopyMatrix(m: RMatrix) returns (c: array2<real>)
    requires Square4(m)
    ensures fresh(c) && c.Length0 == 4 && c.Length1 == 4
    ensures forall i, j :: 0 <= i < 4 && 0 <= j < 4 ==> c[i, j] == At(m, i, j)
  {
    c := new real[4, 4];
    var i := 0;
    while i < 4
      invariant 0 <= i <= 4
      invariant forall i', j :: 0 <= i' < i && 0 <= j < 4 ==> c[i', j] == At(m, i', j)
    {
      var j := 0;
      while j < 4
        invariant 0 <= j <= 4
        invariant forall i', j' :: 0 <= i' < i && 0 <= j' < 4 ==> c[i', j'] == At(m, i', j')
        invariant forall j' :: 0 <= j' < j ==> c[i, j'] == At(m, i, j')
      {
        c[i, j] := At(m, i, j);
        j := j + 1;
      }
      i := i + 1;
    }
  }

  /** The rows of a 4x4 array, as values. */
  function Snapshot(c: array2<real>): (g: seq<seq<real>>)
    requires c.Length0 == 4 && c.Length1 == 4
    reads c
    ensures |g| == 4 && forall i :: 0 <= i < 4 ==> |g[i]| == 4
  {
    seq(4, i requires 0 <= i < 4 reads c => seq(4, j requires 0 <= j < 4 reads c => c[i, j]))
  }

  lemma SnapshotOfCopy(c: array2<real>, m: RMatrix)
    requires Square4(m) && c.Length0 == 4 && c.Length1 == 4
    requires forall i, j :: 0 <= i < 4 && 0 <= j < 4 ==> c[i, j] == At(m, i, j)
    ensures Snapshot(c) == Rows(m)
  {
    forall i | 0 <= i < 4
      ensures Snapshot(c)[i] == Rows(m)[i]
    {
    }
  }

  /**
   * dada_uniques up to the call of run_dada: the checks with their early
   * returns, the matrix copies and the scalar conversions. A failure is
   * the nil return; a success carries the arguments run_dada is called with.
   */
  method Gate(input: Input) returns (r: Result<Params, Check>)
    ensures r == Validate(input)
  {
    if |input.seqs| != |input.abundances| {
      return Failure(LengthMismatch);
    }
    if !Square4(input.score) {
      return Failure(ScoreMalformed);
    }
    var cScore := CopyMatrix(input.score);
    if !Square4(input.err) {
      return Failure(ErrMalformed);
    }
    var cErr := CopyMatrix(input.err);
    if |input.gap| != 1 {
      return Failure(GapNotScalar);
    }
    var gap := input.gap[0];
    if |input.useKmers| != 1 {
      return Failure(UseKmersNotScalar);
    }
    var useKmers := input.useKmers[0] != 0.0;
    if |input.kdistCutoff| != 1 {
      return Failure(KdistCutoffNotScalar);
    }
    var kdistCutoff := input.kdistCutoff[0];
    if |input.omegaA| != 1 {
      return Failure(OmegaANotScalar);
    }
    var omegaA := input.omegaA[0];
    if |input.useSingletons| != 1 {
      return Failure(UseSingletonsNotScalar);
    }
    var useSingletons := input.useSingletons[0];
    if |input.omegaS| != 1 {
      return Failure(OmegaSNotScalar);
    }
    var omegaS := input.omegaS[0];
    SnapshotOfCopy(cScore, input.score);
    SnapshotOfCopy(cErr, input.err);
    r := Success(Params(input.seqs, input.abundances, Snapshot(cScore), Snapshot(cErr),
                        gap, useKmers, kdistCutoff, omegaA, useSingletons, omegaS));
  }
}
