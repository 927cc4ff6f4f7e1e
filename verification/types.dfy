/** Data model shared by the whole project: profile kinds, packed profile
    entries, neighbour matches, profiles and the argument record of one join.

    Correlations are ordered values (`real`); the IEEE-754 bit patterns the
    program uses to pack a correlation and an index into one 64-bit word are
    not modelled, only the pair they carry. */
module ScampTypes {

  /** The profile kinds a computation can produce (SCAMPProfileType). */
  datatype ProfileType =
    | InvalidProfile
    | OneNNIndex
    | OneNN
    | SumThresh
    | FrequencyThresh
    | Knn
    | OneNNMultiDim
    | ApproxAllNeighbors

  /** The arithmetic precision a computation runs in (SCAMPPrecisionType). */
  datatype PrecisionType = InvalidPrecision | Single | Mixed | Double

  /** A packed profile entry: the best correlation found so far and the index
      of the neighbour that reached it. Only `corr` takes part in comparisons. */
  datatype Entry = Entry(corr: real, index: int)

  /** A neighbour match of the approximate all-neighbours profile. */
  datatype Match = Match(corr: real, row: nat, col: nat)

  /** A per-column priority queue, listed in the order its elements pop:
      `q[0]` is the top. Where a pushed element lands is left to the heap
      discipline, which the model keeps abstract. */
  type Queue = seq<Match>

  /** The storage of one profile (ProfileData). The source keeps the packed
      1NN_INDEX entries and the FREQUENCY_THRESH counts in the same 64-bit
      vector; the model gives each reading its own field. */
  datatype ProfileData = ProfileData(
    doubleValue: seq<real>,       // SUM_THRESH
    floatValue: seq<real>,        // 1NN
    packedValue: seq<Entry>,      // 1NN_INDEX
    countValue: seq<nat>,         // FREQUENCY_THRESH
    matchValue: seq<Queue>,       // ALL_NEIGHBORS, one queue per column
    unorderedMatches: seq<Match>, // ALL_NEIGHBORS, as a tile reports them
    matrixValue: seq<seq<real>>)  // ALL_NEIGHBORS, downsampled matrix

  const EmptyData := ProfileData([], [], [], [], [], [], [])

  /** A profile: its kind, its storage and, for the matrix output of the
      all-neighbours kind, the matrix shape and the reduction factors. */
  datatype Profile = Profile(
    kind: ProfileType,
    data: seq<ProfileData>,
    outputMatrix: bool,
    matrixHeight: nat,
    matrixWidth: nat,
    reducedRows: int,
    reducedCols: int)

  /** The arguments of one SCAMP computation (SCAMPArgs), reduced to the
      fields the modelled operations read or write. */
  datatype ScampArgs = ScampArgs(
    window: int,
    maxTileSize: int,
    hasB: bool,
    keepRowsSeparate: bool,
    timeseriesA: seq<real>,
    timeseriesB: seq<real>,
    profileA: Profile,
    profileB: Profile)

  /** Why an operation threw. */
  datatype ScampError =
    | WindowTooSmall
    | TileTooSmall
    | TileNarrowerThanTwoWindows
    | SeriesShorterThanWindow
    | ProfileTypesDiffer
    | MatrixMergeOutOfRange(matrixRow: int, matrixCol: int)
    | Unimplemented
    | InvalidArgument
    | OutOfRange
    | LengthError

  datatype Option<T> = None | Some(value: T)

  /** The outcome of a check that returns normally or throws. */
  datatype Outcome = Pass | Fail(error: ScampError)

  datatype Result<T> = Ok(value: T) | Err(error: ScampError)

  /** The outcome of an operation that updates its target in place and may
      throw part-way: on a throw the target keeps the updates made so far. */
  datatype Step<T> = Done(value: T) | Threw(partial: T, error: ScampError) {
    function State(): T {
      match this
      case Done(v) => v
      case Threw(p, _) => p
    }
  }

  /** The fill value a freshly allocated correlation profile gets. */
  const AllocSentinel: real := -2.0

  /** `std::numeric_limits<float>::lowest()`, the fill value of a new
      piecewise profile segment. */
  const LowestFloat: real := -340282346638528859811704183484516925440.0

  const Two32: int := 0x1_0000_0000
  const Two64: int := 0x1_0000_0000_0000_0000

  /** The value a 32-bit signed destination keeps of `x` (two's complement). */
  function WrapInt32(x: int): (r: int)
    ensures -0x8000_0000 <= r < 0x8000_0000
    ensures -0x8000_0000 <= x < 0x8000_0000 ==> r == x
  {
    var m := x % Two32;
    if m < 0x8000_0000 then m else m - Two32
  }

  /** Narrowing to 32 bits before or after adding `d` gives the same value. */
  lemma WrapInt32Shift(x: int, d: int)
    ensures WrapInt32(WrapInt32(x) + d) == WrapInt32(x + d)
  {
    var w := WrapInt32(x);
    assert (x - w) % Two32 == 0;
    var q := (x - w) / Two32;
    assert x + d == (w + d) + q * Two32;
    ModShift(w + d, q);
  }

  lemma ModShift(y: int, q: int)
    ensures (y + q * Two32) % Two32 == y % Two32
  {
  }

  /** The value a 32-bit unsigned destination keeps of `x`: the same 32
      bits as the signed reading, read as a non-negative number. */
  function AsUnsigned32(x: int): (r: nat)
    ensures r < Two32
    ensures 0 <= x < Two32 ==> r == x
    ensures WrapInt32(r) == WrapInt32(x)
  {
    x % Two32
  }

  /** The value an unsigned 64-bit comparison sees of a signed 64-bit `x`. */
  function AsUnsigned64(x: int): (r: nat)
    requires -0x8000_0000_0000_0000 <= x < 0x8000_0000_0000_0000
    ensures r < Two64
    ensures x >= 0 ==> r == x
    ensures x < 0 ==> r == x + Two64
  {
    if x < 0 then x + Two64 else x
  }
}
