/** Sizing of one computation (OpInfo) and validation of its arguments
    (SCAMPArgs::validate), both from src/common.cpp. */
module Config {
  import opened ScampTypes

  /** Options the kernel reads but this model never looks into. */
  datatype OptionalArgs = OptionalArgs(handle: nat)

  /** The per-computation settings and the tile sizes derived from them. */
  datatype OpInfo = OpInfo(
    fullLenA: nat,
    fullLenB: nat,
    window: nat,
    selfJoin: bool,
    precision: PrecisionType,
    globalStartRow: int,
    globalStartCol: int,
    optArgs: OptionalArgs,
    profileType: ProfileType,
    keepRowsSeparate: bool,
    computingRows: bool,
    computingCols: bool,
    isAligned: bool,
    silentMode: bool,
    maxMatchesPerColumn: int,
    maxTileTsSize: nat,
    maxTileWidth: int,
    maxTileHeight: int,
    maxMatchesPerTile: nat)

  function Max(a: int, b: int): int {
    if a < b then b else a
  }

  function Min(a: int, b: int): int {
    if a < b then a else b
  }

  /** The least tile length: the window narrowed to a signed 32-bit `int`
      (the smallest allowed tile dimension) plus the window itself, added
      in 64 bits. For a window below 2^31 that is two windows; from 2^31 to
      2^32 the narrowed term is negative and the floor falls short of one
      window, reaching 0 at a window of exactly 2^31. */
  function TileFloor(window: nat): (r: nat)
    ensures r < Two64
    ensures window < Two32 / 2 ==> r == 2 * window
    ensures Two32 / 2 <= window < Two32 ==> r == 2 * window - Two32 && r < window
  {
    (WrapInt32(window) + window) % Two64
  }

  /** Builds the settings of a computation. A self-join uses series A for
      both operands. The tile length is the longer input split over the
      workers, capped at `maxTileSize`, but never below TileFloor(window)
      (two windows, for a window below 2^31), and that lower bound wins over
      the cap. The match budget splits the profile memory budget over the
      workers. `memoryBudget` and `matchBytes` stand for
      PROFILE_MEMORY_BUDGET and sizeof(SCAMPmatch). */
  function NewOpInfo(
    aSize: nat, bSize: nat, window: nat, maxTileSize: nat, selfJoin: bool,
    precision: PrecisionType, startRow: int, startCol: int, args: OptionalArgs,
    profileType: ProfileType, keepRows: bool, computeRows: bool,
    computeCols: bool, aligned: bool, silentMode: bool, numWorkers: nat,
    maxMatchesPerColumn: int, memoryBudget: nat, matchBytes: nat): (r: OpInfo)
    requires numWorkers > 0 && matchBytes > 0
    ensures r.fullLenA == aSize
    ensures r.fullLenB == (if selfJoin then aSize else bSize)
    ensures r.maxTileTsSize == Max(TileFloor(window), Min(maxTileSize, Share(Max(aSize, bSize), numWorkers)))
    ensures window < Two32 / 2 ==>
              r.maxTileTsSize == Max(2 * window, Min(maxTileSize, Share(Max(aSize, bSize), numWorkers)))
    ensures window < Two32 / 2 ==> r.maxTileTsSize >= 2 * window
    ensures window < Two32 / 2 && 2 * window <= maxTileSize <= Share(Max(aSize, bSize), numWorkers) ==>
              r.maxTileTsSize == maxTileSize
    ensures r.maxTileWidth == r.maxTileTsSize - window + 1
    ensures window < Two32 / 2 ==> r.maxTileWidth >= window + 1
    ensures r.maxTileHeight == r.maxTileWidth
    ensures r.maxMatchesPerTile * matchBytes <= Share(memoryBudget, numWorkers)
            < (r.maxMatchesPerTile + 1) * matchBytes
    ensures r.window == window && r.selfJoin == selfJoin && r.profileType == profileType
    ensures r.maxMatchesPerColumn == maxMatchesPerColumn && r.optArgs == args
  {
    var tsSize := TileLength(Share(Max(aSize, bSize), numWorkers), window, maxTileSize);
    var width := tsSize - window + 1;
    OpInfo(aSize, if selfJoin then aSize else bSize, window, selfJoin, precision,
           startRow, startCol, args, profileType, keepRows, computeRows,
           computeCols, aligned, silentMode, maxMatchesPerColumn,
           tsSize, width, width, MatchBudget(memoryBudget, numWorkers, matchBytes))
  }

  /** The tile length for a `perWorker` share of the longer series: the
      share capped at `maxTileSize`, then raised to TileFloor(window). The
      floor wins over the cap; for a window below 2^31 the tile holds two
      windows, and a cap that leaves room for two windows and lies below
      the share is the length. */
  function TileLength(perWorker: nat, window: nat, maxTileSize: nat): (r: nat)
    ensures r == Max(TileFloor(window), Min(maxTileSize, perWorker))
    ensures window < Two32 / 2 ==> r == Max(2 * window, Min(maxTileSize, perWorker))
    ensures window < Two32 / 2 ==> r >= 2 * window
    ensures window < Two32 / 2 && 2 * window <= maxTileSize <= perWorker ==> r == maxTileSize
  {
    var capped: nat := if perWorker > maxTileSize then maxTileSize else perWorker;
    var floor := TileFloor(window);
    if capped < floor then floor else capped
  }

  /** The matches one worker may hold: as many `matchBytes`-sized matches
      as fit in its share of the memory budget. */
  function MatchBudget(memoryBudget: nat, numWorkers: nat, matchBytes: nat): (r: nat)
    requires numWorkers > 0 && matchBytes > 0
    ensures r * matchBytes <= Share(memoryBudget, numWorkers) < (r + 1) * matchBytes
  {
    Share(Share(memoryBudget, numWorkers), matchBytes)
  }

  /** The whole number of `parts`-sized pieces in `total`: the unsigned
      division of the source. */
  function Share(total: nat, parts: nat): (r: nat)
    requires parts > 0
    ensures r * parts <= total < (r + 1) * parts
  {
    var q := total / parts;
    DivBracket(total, parts);
    q
  }

  /** Integer division brackets its dividend. */
  lemma DivBracket(a: nat, b: nat)
    requires b > 0
    ensures (a / b) * b <= a < (a / b + 1) * b
  {
    assert a == (a / b) * b + a % b;
  }

  /** The arguments a computation accepts: a window of at least 3, a tile
      of at least 1024 that holds two windows, and every used series at
      least one window long. */
  predicate ValidArgs(args: ScampArgs) {
    && 3 <= args.window
    && 1024 <= args.maxTileSize
    && args.window <= args.maxTileSize / 2
    && args.window <= |args.timeseriesA|
    && (args.hasB ==> args.window <= |args.timeseriesB|)
  }

  /** SCAMPArgs::validate: returns normally exactly on valid arguments, and
      otherwise throws the error of the first check that fails, in the
      order window, tile size, tile against window, series lengths. (The
      tile size is positive by then, so the source's truncating division
      agrees with Dafny's.) */
  function Validate(args: ScampArgs): (r: Outcome)
    ensures r == Pass <==> ValidArgs(args)
    ensures r == Fail(WindowTooSmall) <==> args.window < 3
    ensures r == Fail(TileTooSmall) <==> 3 <= args.window && args.maxTileSize < 1024
    ensures r == Fail(TileNarrowerThanTwoWindows)
            <==> 3 <= args.window && 1024 <= args.maxTileSize && args.maxTileSize / 2 < args.window
    ensures r.Fail? ==> r.error in {WindowTooSmall, TileTooSmall, TileNarrowerThanTwoWindows, SeriesShorterThanWindow}
  {
    if args.window < 3 then Fail(WindowTooSmall)
    else if args.maxTileSize < 1024 then Fail(TileTooSmall)
    else if args.maxTileSize / 2 < args.window then Fail(TileNarrowerThanTwoWindows)
    else if |args.timeseriesA| < args.window || (args.hasB && |args.timeseriesB| < args.window) then
      Fail(SeriesShorterThanWindow)
    else Pass
  }
}
