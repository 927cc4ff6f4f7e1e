/** Command-line helpers and output encoding (src/scamp_utils.cpp): option
    parsing, the records the profile files receive, the profile-size check
    before allocation and the reduction of the all-neighbours queues to a
    coarse matrix. Files are modelled as the sequences of records written
    to them; number formatting is not modelled. */
module ScampUtils {
  import opened ScampTypes
  import opened Decimal
  import opened ProfileMerge
  import Config

  // ---------------------------------------------------------------------
  // Option parsing
  // ---------------------------------------------------------------------

  /** Reads every field with `std::stoi`, front to back; the first field
      that does not read stops the parse with its error. */
  function ParseFields(fields: seq<string>): (r: Result<seq<int>>)
    ensures r.Ok? <==> forall k :: 0 <= k < |fields| ==> Stoi(fields[k]).Ok?
    ensures r.Ok? ==> |r.value| == |fields| && forall k :: 0 <= k < |fields| ==> Stoi(fields[k]) == Ok(r.value[k])
    ensures r.Err? ==>
              exists k :: 0 <= k < |fields| && Stoi(fields[k]) == Err(r.error)
                && forall l :: 0 <= l < k ==> Stoi(fields[l]).Ok?
    decreases |fields|
  {
    if |fields| == 0 then Ok([])
    else
      var head := Stoi(fields[0]);
      var tail := ParseFields(fields[1..]);
      assert forall k :: 1 <= k < |fields| ==> fields[1..][k - 1] == fields[k];
      if head.Err? then Err(head.error)
      else if tail.Err? then
        FirstFailureShift(fields, tail.error);
        Err(tail.error)
      else Ok([head.value] + tail.value)
  }

  /** The field that stops the parse of all but the first field stops the
      parse of all of them, once the first field reads. */
  lemma FirstFailureShift(fields: seq<string>, e: ScampError)
    requires |fields| > 0 && Stoi(fields[0]).Ok?
    requires exists k :: 0 <= k < |fields| - 1 && Stoi(fields[1..][k]) == Err(e)
               && forall l :: 0 <= l < k ==> Stoi(fields[1..][l]).Ok?
    ensures exists k :: 0 <= k < |fields| && Stoi(fields[k]) == Err(e)
              && forall l :: 0 <= l < k ==> Stoi(fields[l]).Ok?
  {
    var k :| 0 <= k < |fields| - 1 && Stoi(fields[1..][k]) == Err(e)
             && forall l :: 0 <= l < k ==> Stoi(fields[1..][l]).Ok?;
    forall l | 0 <= l < k + 1
      ensures Stoi(fields[l]).Ok?
    {
      if l > 0 {
        assert fields[l] == fields[1..][l - 1];
      }
    }
    assert fields[k + 1] == fields[1..][k];
  }

  /** ParseIntList: the empty string is the empty list; otherwise the text
      is cut at every comma and each field read with `std::stoi`, in order,
      so a list that reads holds one integer per field and commas + 1
      fields. The first field that does not read throws its error. */
  function ParseIntList(s: string): (r: Result<seq<int>>)
    ensures s == [] ==> r == Ok([])
    ensures s != [] && r.Ok? ==>
              && |r.value| == Count(s, ',') + 1
              && forall k :: 0 <= k < |r.value| ==> Stoi(Split(s, ',')[k]) == Ok(r.value[k])
    ensures s != [] && r.Err? ==>
              exists k :: 0 <= k < |Split(s, ',')| && Stoi(Split(s, ',')[k]) == Err(r.error)
                && forall l :: 0 <= l < k ==> Stoi(Split(s, ',')[l]).Ok?
  {
    if s == [] then Ok([])
    else ParseFields(Split(s, ','))
  }

  /** The text a list of integers is written as: decimal fields separated
      by commas. */
  function FormatIntList(xs: seq<int>): string {
    Join(IntStrings(xs), ',')
  }

  function IntStrings(xs: seq<int>): (r: seq<string>)
    ensures |r| == |xs|
    ensures forall k :: 0 <= k < |xs| ==> r[k] == IntToString(xs[k])
    decreases |xs|
  {
    if |xs| == 0 then [] else [IntToString(xs[0])] + IntStrings(xs[1..])
  }

  lemma IntToStringHasNoComma(x: int)
    ensures ',' !in IntToString(x)
  {
    var s := IntToString(x);
    var digits := if x < 0 then NatToString(-x) else NatToString(x);
    forall k | 0 <= k < |s|
      ensures s[k] != ','
    {
      if x < 0 && k == 0 {
        assert s[k] == '-';
      } else {
        var j := if x < 0 then k - 1 else k;
        assert s[k] == digits[j];
        assert IsDigit(digits[j]);
      }
    }
  }

  /** A non-empty list of 32-bit integers, written with commas, parses
      back to itself. */
  lemma ParseIntListRoundTrip(xs: seq<int>)
    requires |xs| > 0
    requires forall k :: 0 <= k < |xs| ==> MinInt32 <= xs[k] <= MaxInt32
    ensures ParseIntList(FormatIntList(xs)) == Ok(xs)
  {
    var fields := IntStrings(xs);
    forall k | 0 <= k < |fields|
      ensures ',' !in fields[k]
      ensures Stoi(fields[k]) == Ok(xs[k])
    {
      IntToStringHasNoComma(xs[k]);
      StoiIntToString(xs[k]);
    }
    SplitJoin(fields, ',');
    var s := FormatIntList(xs);
    JoinSplit(s, ',');
    assert s != [];
    var r := ParseFields(fields);
    assert r.Ok?;
    assert r.value == xs;
  }

  /** GetPrecisionType: the most precise requested precision wins, double
      over mixed over single; with none requested the precision is
      invalid. */
  function GetPrecisionType(doublePrecision: bool, mixedPrecision: bool, singlePrecision: bool): (r: PrecisionType)
    ensures r == Double <==> doublePrecision
    ensures r == Mixed <==> !doublePrecision && mixedPrecision
    ensures r == Single <==> !doublePrecision && !mixedPrecision && singlePrecision
    ensures r == InvalidPrecision <==> !doublePrecision && !mixedPrecision && !singlePrecision
  {
    if doublePrecision then Double
    else if mixedPrecision then Mixed
    else if singlePrecision then Single
    else InvalidPrecision
  }

  /** The command-line name of the profile kinds that have one. */
  function ProfileTypeName(t: ProfileType): Option<string> {
    match t
    case OneNNIndex => Some("1NN_INDEX")
    case SumThresh => Some("SUM_THRESH")
    case OneNN => Some("1NN")
    case ApproxAllNeighbors => Some("ALL_NEIGHBORS")
    case _ => None
  }

  /** ParseProfileType: exactly the four names map to their kinds; any
      other text is the invalid kind. */
  function ParseProfileType(s: string): (r: ProfileType)
    ensures r != InvalidProfile <==> s in {"1NN_INDEX", "SUM_THRESH", "1NN", "ALL_NEIGHBORS"}
    ensures r in {InvalidProfile, OneNNIndex, SumThresh, OneNN, ApproxAllNeighbors}
  {
    if s == "1NN_INDEX" then OneNNIndex
    else if s == "SUM_THRESH" then SumThresh
    else if s == "1NN" then OneNN
    else if s == "ALL_NEIGHBORS" then ApproxAllNeighbors
    else InvalidProfile
  }

  /** Parsing and naming are inverse: a kind with a name parses back from
      it, and text that parses to a valid kind is that kind's name. */
  lemma ParseProfileTypeInverse(t: ProfileType, s: string)
    ensures ProfileTypeName(t).Some? ==> ParseProfileType(ProfileTypeName(t).value) == t
    ensures ParseProfileType(s) != InvalidProfile ==> ProfileTypeName(ParseProfileType(s)) == Some(s)
  {
  }

  // ---------------------------------------------------------------------
  // Output records (WriteProfileToFile)
  // ---------------------------------------------------------------------

  /** A value as written: a raw number, or a Euclidean distance that is
      either not a number or the square root of `radicand` (the root is
      left uninterpreted). */
  datatype OutValue = Raw(x: real) | NotANumber | SqrtOf(radicand: real)

  /** ConvertToEuclidean: a correlation below -1 marks "no match" and has
      no distance; otherwise the distance is the square root of
      2 * window * (1 - corr), clamped below at zero. */
  function ConvertToEuclidean(corr: real, window: int): (r: OutValue)
    ensures r.NotANumber? <==> corr < -1.0
    ensures r.SqrtOf? <==> -1.0 <= corr
    ensures r.SqrtOf? ==> 0.0 <= r.radicand && 2.0 * (window as real) * (1.0 - corr) <= r.radicand
    ensures r.SqrtOf? && 0.0 < r.radicand ==> r.radicand == 2.0 * (window as real) * (1.0 - corr)
  {
    if corr < -1.0 then NotANumber
    else
      var d := 2.0 * (window as real) * (1.0 - corr);
      SqrtOf(if d < 0.0 then 0.0 else d)
  }

  /** A higher correlation never gives a larger distance. */
  lemma ConvertToEuclideanMonotone(c1: real, c2: real, window: int)
    requires -1.0 <= c1 <= c2 && 0 <= window
    ensures ConvertToEuclidean(c2, window).radicand <= ConvertToEuclidean(c1, window).radicand
  {
    var k := 2.0 * (window as real);
    assert k * (1.0 - c2) <= k * (1.0 - c1) by {
      MulNonNegative(k, c2 - c1);
      assert k * (1.0 - c1) - k * (1.0 - c2) == k * (c2 - c1);
    }
  }

  lemma MulNonNegative(a: real, b: real)
    requires 0.0 <= a && 0.0 <= b
    ensures 0.0 <= a * b
  {
  }

  /** A correlation as the output option asks for it. */
  function Emit(corr: real, outputPearson: bool, window: int): OutValue {
    if outputPearson then Raw(corr) else ConvertToEuclidean(corr, window)
  }

  /** One line of a profile file. */
  datatype Line =
    | Value(v: OutValue)                        // one profile value
    | Neighbor(col: nat, row: nat, v: OutValue)  // one all-neighbours match
    | MatrixRow(cells: seq<OutValue>)            // one row of the matrix

  /** What WriteProfileToFile writes: the lines of the value file and of
      the index file, `None` for a file it does not open. */
  datatype Files = Files(mp: Option<seq<Line>>, mpi: Option<seq<int>>)

  /** The index record of a 1NN_INDEX entry: -1 for "no match" (a
      correlation below -1), otherwise the 1-based neighbour index, computed
      in a 32-bit `int`. */
  function IndexRecord(e: Entry): int {
    if e.corr < -1.0 then -1 else WrapInt32(e.index + 1)
  }

  /** A priority queue emptied top first into the front of a list: the
      list holds the queue in the reverse of pop order. */
  function DrainReversed(q: Queue): (r: seq<Match>)
    ensures |r| == |q|
    ensures forall i :: 0 <= i < |q| ==> r[i] == q[|q| - 1 - i]
    decreases |q|
  {
    if |q| == 0 then [] else DrainReversed(q[1..]) + [q[0]]
  }

  /** The neighbour lines of a list of matches. */
  function NeighborLines(ms: seq<Match>, outputPearson: bool, window: int): (r: seq<Line>)
    ensures |r| == |ms|
    ensures forall i :: 0 <= i < |ms| ==> r[i] == Neighbor(ms[i].col, ms[i].row, Emit(ms[i].corr, outputPearson, window))
    decreases |ms|
  {
    if |ms| == 0 then []
    else NeighborLines(ms[..|ms| - 1], outputPearson, window)
         + [Neighbor(ms[|ms| - 1].col, ms[|ms| - 1].row, Emit(ms[|ms| - 1].corr, outputPearson, window))]
  }

  /** The number of matches in the queues before queue `c`. */
  function MatchesBefore(queues: seq<Queue>, c: nat): nat
    requires c <= |queues|
    decreases c
  {
    if c == 0 then 0 else MatchesBefore(queues, c - 1) + |queues[c - 1]|
  }

  /** The neighbour lines of all queues: each queue, in order, contributes
      the block of its matches in the reverse of pop order. */
  function QueueLines(queues: seq<Queue>, outputPearson: bool, window: int): seq<Line>
    decreases |queues|
  {
    if |queues| == 0 then []
    else
      var n := |queues| - 1;
      QueueLines(queues[..n], outputPearson, window) + NeighborLines(DrainReversed(queues[n]), outputPearson, window)
  }

  /** The lines of the queues are laid out queue by queue: queue `c`'s
      block starts after the matches of the queues before it and lists its
      matches in the reverse of pop order. */
  predicate QueueLayout(queues: seq<Queue>, outputPearson: bool, window: int, lines: seq<Line>) {
    && |lines| == MatchesBefore(queues, |queues|)
    && forall c, i :: 0 <= c < |queues| && 0 <= i < |DrainReversed(queues[c])| ==>
         LineAt(queues, outputPearson, window, lines, c, i)
  }

  /** The line of the `i`-th match of queue `c`, in the reverse of pop
      order, comes after the matches of the queues before `c`. */
  predicate LineAt(queues: seq<Queue>, outputPearson: bool, window: int, lines: seq<Line>, c: nat, i: nat)
    requires c < |queues| && i < |DrainReversed(queues[c])|
  {
    var m := DrainReversed(queues[c])[i];
    && MatchesBefore(queues, c) + i < |lines|
    && lines[MatchesBefore(queues, c) + i] == Neighbor(m.col, m.row, Emit(m.corr, outputPearson, window))
  }

  lemma {:induction false} QueueLinesLayout(queues: seq<Queue>, outputPearson: bool, window: int)
    ensures QueueLayout(queues, outputPearson, window, QueueLines(queues, outputPearson, window))
    decreases |queues|
  {
    if |queues| > 0 {
      var n := |queues| - 1;
      QueueLinesLayout(queues[..n], outputPearson, window);
      var front := QueueLines(queues[..n], outputPearson, window);
      QueueLinesStep(queues, outputPearson, window, front);
    }
  }

  /** The inductive step of QueueLinesLayout. */
  lemma {:induction false} QueueLinesStep(queues: seq<Queue>, outputPearson: bool, window: int, front: seq<Line>)
    requires |queues| > 0
    requires QueueLayout(queues[..|queues| - 1], outputPearson, window, front)
    ensures QueueLayout(queues, outputPearson, window,
                        front + NeighborLines(DrainReversed(queues[|queues| - 1]), outputPearson, window))
  {
    var n := |queues| - 1;
    var block := NeighborLines(DrainReversed(queues[n]), outputPearson, window);
    var r := front + block;
    assert |r| == MatchesBefore(queues, |queues|) by {
      assert |queues[..n]| == n;
      MatchesBeforeAgree(queues, n, n);
    }
    forall c, i | 0 <= c < |queues| && 0 <= i < |DrainReversed(queues[c])|
      ensures LineAt(queues, outputPearson, window, r, c, i)
    {
      if c < n {
        QueueLinesEarlier(queues, outputPearson, window, front, block, c, i);
      } else {
        QueueLinesLast(queues, outputPearson, window, front, i);
      }
    }
  }

  /** QueueLinesStep for the last queue: its lines follow `front`. */
  lemma QueueLinesLast(queues: seq<Queue>, outputPearson: bool, window: int, front: seq<Line>, i: nat)
    requires |queues| > 0 && i < |DrainReversed(queues[|queues| - 1])|
    requires |front| == MatchesBefore(queues[..|queues| - 1], |queues| - 1)
    ensures var n := |queues| - 1;
            LineAt(queues, outputPearson, window, front + NeighborLines(DrainReversed(queues[n]), outputPearson, window), n, i)
  {
    var n := |queues| - 1;
    var ms := DrainReversed(queues[n]);
    var block := NeighborLines(ms, outputPearson, window);
    assert MatchesBefore(queues, n) == |front| by {
      MatchesBeforeAgree(queues, n, n);
    }
    assert (front + block)[|front| + i] == block[i];
    assert block[i] == Neighbor(ms[i].col, ms[i].row, Emit(ms[i].corr, outputPearson, window));
  }

  /** QueueLinesStep for a queue before the last one: its line is already
      in `front`, at the same place. */
  lemma QueueLinesEarlier(queues: seq<Queue>, outputPearson: bool, window: int, front: seq<Line>, block: seq<Line>,
                          c: nat, i: nat)
    requires c < |queues| - 1 && i < |DrainReversed(queues[c])|
    requires QueueLayout(queues[..|queues| - 1], outputPearson, window, front)
    ensures LineAt(queues, outputPearson, window, front + block, c, i)
  {
    var n := |queues| - 1;
    var prefix := queues[..n];
    assert prefix[c] == queues[c];
    assert LineAt(prefix, outputPearson, window, front, c, i);
    MatchesBeforeAgree(queues, n, c);
  }

  lemma {:induction false} MatchesBeforeAgree(queues: seq<Queue>, n: nat, c: nat)
    requires c <= n <= |queues|
    ensures MatchesBefore(queues[..n], c) == MatchesBefore(queues, c)
    decreases c
  {
    if c > 0 {
      MatchesBeforeAgree(queues, n, c - 1);
      assert queues[..n][c - 1] == queues[c - 1];
    }
  }

  /** The value lines of a sequence of correlations. */
  function ValueLines(vs: seq<real>, outputPearson: bool, window: int): (r: seq<Line>)
    ensures |r| == |vs|
    ensures forall k :: 0 <= k < |vs| ==> r[k] == Value(Emit(vs[k], outputPearson, window))
  {
    seq(|vs|, k requires 0 <= k < |vs| => Value(Emit(vs[k], outputPearson, window)))
  }

  /** The lines of a matrix, one per row. */
  function MatrixLines(m: seq<seq<real>>, outputPearson: bool, window: int): (r: seq<Line>)
    ensures |r| == |m|
    ensures forall i :: 0 <= i < |m| ==>
              && r[i].MatrixRow?
              && |r[i].cells| == |m[i]|
              && forall j :: 0 <= j < |m[i]| ==> r[i].cells[j] == Emit(m[i][j], outputPearson, window)
  {
    seq(|m|, i requires 0 <= i < |m| =>
      MatrixRow(seq(|m[i]|, j requires 0 <= j < |m[i]| => Emit(m[i][j], outputPearson, window))))
  }

  /** The profile kinds WriteProfileToFile writes. */
  predicate Written(kind: ProfileType) {
    kind in {OneNNIndex, OneNN, SumThresh, ApproxAllNeighbors}
  }

  /** WriteProfileToFile, as the records each file receives. A written
      kind needs its first storage record. 1NN_INDEX writes one value and
      one index record per entry; 1NN one value per entry; SUM_THRESH the
      raw sums whatever the output option; ALL_NEIGHBORS the matrix when
      there is one, else every queue's matches in the reverse of pop
      order; other kinds write nothing. */
  function WriteProfile(p: Profile, outputPearson: bool, window: int): (r: Files)
    requires Written(p.kind) ==> |p.data| > 0
    ensures r.mp.Some? <==> Written(p.kind)
    ensures r.mpi.Some? <==> p.kind == OneNNIndex
    ensures p.kind == OneNNIndex ==>
              var es := p.data[0].packedValue;
              && |r.mp.value| == |es| && |r.mpi.value| == |es|
              && (forall k :: 0 <= k < |es| ==> r.mp.value[k] == Value(Emit(es[k].corr, outputPearson, window)))
              && (forall k :: 0 <= k < |es| && es[k].corr < -1.0 ==> r.mpi.value[k] == -1)
              && (forall k :: 0 <= k < |es| && -1.0 <= es[k].corr ==> r.mpi.value[k] == WrapInt32(es[k].index + 1))
    ensures p.kind == OneNN ==>
              var vs := p.data[0].floatValue;
              && |r.mp.value| == |vs|
              && forall k :: 0 <= k < |vs| ==> r.mp.value[k] == Value(Emit(vs[k], outputPearson, window))
    ensures p.kind == SumThresh ==>
              var vs := p.data[0].doubleValue;
              && |r.mp.value| == |vs|
              && forall k :: 0 <= k < |vs| ==> r.mp.value[k] == Value(Raw(vs[k]))
    ensures p.kind == ApproxAllNeighbors && |p.data[0].matrixValue| > 0 ==>
              var m := p.data[0].matrixValue;
              && |r.mp.value| == |m|
              && forall i :: 0 <= i < |m| ==>
                   && r.mp.value[i].MatrixRow?
                   && |r.mp.value[i].cells| == |m[i]|
                   && forall j :: 0 <= j < |m[i]| ==> r.mp.value[i].cells[j] == Emit(m[i][j], outputPearson, window)
    ensures p.kind == ApproxAllNeighbors && |p.data[0].matrixValue| == 0 ==>
              QueueLayout(p.data[0].matchValue, outputPearson, window, r.mp.value)
  {
    match p.kind
    case OneNNIndex =>
      var es := p.data[0].packedValue;
      Files(Some(ValueLines(seq(|es|, k requires 0 <= k < |es| => es[k].corr), outputPearson, window)),
            Some(seq(|es|, k requires 0 <= k < |es| => IndexRecord(es[k]))))
    case OneNN => Files(Some(ValueLines(p.data[0].floatValue, outputPearson, window)), None)
    case SumThresh =>
      var vs := p.data[0].doubleValue;
      Files(Some(ValueLines(vs, true, window)), None)
    case ApproxAllNeighbors =>
      var m := p.data[0].matrixValue;
      if |m| > 0 then Files(Some(MatrixLines(m, outputPearson, window)), None)
      else
        QueueLinesLayout(p.data[0].matchValue, outputPearson, window);
        Files(Some(QueueLines(p.data[0].matchValue, outputPearson, window)), None)
    case _ => Files(None, None)
  }

  /** The index file of a 1NN_INDEX profile can be read back: for an
      entry with a neighbour (an index in the non-negative 32-bit range)
      the record is -1 exactly when it had no match. Otherwise subtracting
      one from the record gives the neighbour, except for the last 32-bit
      index, whose record wraps round to the least 32-bit value. */
  lemma IndexFileDecodes(p: Profile, outputPearson: bool, window: int, k: nat)
    requires p.kind == OneNNIndex && |p.data| > 0
    requires k < |p.data[0].packedValue| && 0 <= p.data[0].packedValue[k].index < Two32 / 2
    ensures var rec := WriteProfile(p, outputPearson, window).mpi.value[k];
            var e := p.data[0].packedValue[k];
            && (rec == -1 <==> e.corr < -1.0)
            && (rec != -1 && e.index < Two32 / 2 - 1 ==> 1 <= rec && rec - 1 == e.index)
            && (rec != -1 && e.index == Two32 / 2 - 1 ==> rec == -Two32 / 2)
  {
  }

  // ---------------------------------------------------------------------
  // Profile memory (InitProfileMemory)
  // ---------------------------------------------------------------------

  /** InitProfileMemory: profile A gets |A| - window + 1 entries, and
      profile B, only when rows are kept separate, |B| - window + 1 (or the
      size of A in a self-join). A size that is not positive where it is
      needed refuses the arguments untouched. */
  function InitProfileMemory(args: ScampArgs): (r: (bool, ScampArgs))
    ensures var sizeA := |args.timeseriesA| - args.window + 1;
            var sizeB := if args.hasB then |args.timeseriesB| - args.window + 1 else sizeA;
            && (r.0 <==> 0 < sizeA && (args.keepRowsSeparate ==> 0 < sizeB))
            && (!r.0 ==> r.1 == args)
            && (r.0 ==>
                  && r.1 == args.(profileA := r.1.profileA, profileB := r.1.profileB)
                  && r.1.profileA == Alloc(args.profileA, sizeA)
                  && r.1.profileB == (if args.keepRowsSeparate then Alloc(args.profileB, sizeB) else args.profileB))
  {
    var sizeA := |args.timeseriesA| - args.window + 1;
    var sizeB := if args.hasB then |args.timeseriesB| - args.window + 1 else sizeA;
    if sizeA <= 0 || (args.keepRowsSeparate && sizeB <= 0) then (false, args)
    else
      var a := args.(profileA := Alloc(args.profileA, sizeA));
      if args.keepRowsSeparate then (true, a.(profileB := Alloc(args.profileB, sizeB))) else (true, a)
  }

  /** Arguments that pass validation always get their profile memory. */
  lemma ValidArgsGetMemory(args: ScampArgs)
    requires Config.Validate(args) == Pass
    ensures InitProfileMemory(args).0
  {
  }

  /** A fresh 1NN_INDEX profile A gets one no-match entry per subsequence
      of series A. */
  lemma InitProfileMemorySizesA(args: ScampArgs)
    requires args.profileA.kind == OneNNIndex && |args.profileA.data| == 0
    requires InitProfileMemory(args).0
    ensures var a := InitProfileMemory(args).1.profileA;
            AllFill(a.data[0].packedValue, |args.timeseriesA| - args.window + 1, AllocEntry)
  {
  }

  // ---------------------------------------------------------------------
  // Reducing the neighbour queues to a matrix (reduce_all_neighbors)
  // ---------------------------------------------------------------------

  /** `ceil(a / b)` for a positive divisor. */
  function CeilDiv(a: nat, b: nat): (r: nat)
    requires b > 0
    ensures r * b >= a
    ensures a > 0 ==> (r - 1) * b < a
  {
    (a + b - 1) / b
  }

  /** `h` rows of `w` copies of `v`. */
  function Grid(h: nat, w: nat, v: real): (r: seq<seq<real>>)
    ensures |r| == h && forall i :: 0 <= i < h ==> AllFill(r[i], w, v)
  {
    seq(h, _ => seq(w, _ => v))
  }

  /** The matches of the queues, queue after queue, each in pop order. */
  function Drained(queues: seq<Queue>): seq<Match>
    decreases |queues|
  {
    if |queues| == 0 then [] else Drained(queues[..|queues| - 1]) + queues[|queues| - 1]
  }

  /** The cell of `m` lies inside an `oh` by `ow` matrix. */
  predicate Lands(m: Match, rr: nat, rc: nat, oh: nat, ow: nat)
    requires rr > 0 && rc > 0
  {
    m.row / rr < oh && m.col / rc < ow
  }

  /** The matches that land, in order. */
  function Kept(ms: seq<Match>, rr: nat, rc: nat, oh: nat, ow: nat): (r: seq<Match>)
    requires rr > 0 && rc > 0
    ensures forall m :: m in r <==> m in ms && Lands(m, rr, rc, oh, ow)
    ensures forall k :: 0 <= k < |r| ==> Lands(r[k], rr, rc, oh, ow)
    decreases |ms|
  {
    if |ms| == 0 then []
    else
      var n := |ms| - 1;
      assert ms == ms[..n] + [ms[n]];
      Kept(ms[..n], rr, rc, oh, ow) + (if Lands(ms[n], rr, rc, oh, ow) then [ms[n]] else [])
  }

  /** The matches that do not land, in order. */
  function Dropped(ms: seq<Match>, rr: nat, rc: nat, oh: nat, ow: nat): (r: seq<Match>)
    requires rr > 0 && rc > 0
    ensures forall m :: m in r <==> m in ms && !Lands(m, rr, rc, oh, ow)
    decreases |ms|
  {
    if |ms| == 0 then []
    else
      var n := |ms| - 1;
      assert ms == ms[..n] + [ms[n]];
      Dropped(ms[..n], rr, rc, oh, ow) + (if Lands(ms[n], rr, rc, oh, ow) then [] else [ms[n]])
  }

  /** A reduced matrix and the matches that did not fit into it (each
      announced with a warning). */
  datatype Reduction = Reduction(cells: seq<seq<real>>, dropped: seq<Match>)

  /** reduce_all_neighbors, with the column bound the code evidently
      intends: the reduction factors are the ceiling divisions of the
      profile size by the output size; the result is `oh` by `ow`, starting
      at -1.0; a match whose cell (row / rr, col / rc) lies outside is
      dropped, and every other raises its cell to at least its
      correlation. Every cell ends at -1.0 or at the correlation of a match
      in it. The queues are read from copies and stay as they were. */
  function ReduceAllNeighbors(queues: seq<Queue>, height: nat, width: nat, oh: nat, ow: nat): (r: Reduction)
    requires height > 0 && width > 0 && oh > 0 && ow > 0
    ensures IsReduction(Drained(queues), CeilDiv(height, oh), CeilDiv(width, ow), oh, ow, r)
  {
    var rr := CeilDiv(height, oh);
    var rc := CeilDiv(width, ow);
    var ms := Drained(queues);
    ReduceKeptDone(ms, rr, rc, oh, ow);
    ReduceKeptIsReduction(ms, rr, rc, oh, ow);
    Reduction(MatrixMerge(Kept(ms, rr, rc, oh, ow), Grid(oh, ow, -1.0), 0, 0, rr, rc).value, Dropped(ms, rr, rc, oh, ow))
  }

  /** `r` is an `oh` by `ow` reduction of the matches `ms` with factors
      `rr` and `rc`: it drops exactly the matches whose cell lies outside,
      every other match raises its cell to at least its correlation, and
      every cell is at least -1.0 and either still -1.0 or the correlation
      of a match in it. */
  ghost predicate IsReduction(ms: seq<Match>, rr: nat, rc: nat, oh: nat, ow: nat, r: Reduction)
    requires rr > 0 && rc > 0
  {
    && |r.cells| == oh && (forall i :: 0 <= i < oh ==> |r.cells[i]| == ow)
    && (forall m :: m in r.dropped <==> m in ms && !Lands(m, rr, rc, oh, ow))
    && (forall m :: m in ms && Lands(m, rr, rc, oh, ow) ==> m.corr <= r.cells[m.row / rr][m.col / rc])
    && (forall i, j :: 0 <= i < oh && 0 <= j < ow ==>
          && -1.0 <= r.cells[i][j]
          && (|| r.cells[i][j] == -1.0
              || exists m :: m in ms && m.row / rr == i && m.col / rc == j && r.cells[i][j] == m.corr))
  }

  /** Merging the matches that land into a grid of -1.0 and setting aside
      the others is a reduction. */
  lemma ReduceKeptIsReduction(ms: seq<Match>, rr: nat, rc: nat, oh: nat, ow: nat)
    requires rr > 0 && rc > 0 && oh > 0
    ensures Rectangular(Grid(oh, ow, -1.0))
    ensures var merged := MatrixMerge(Kept(ms, rr, rc, oh, ow), Grid(oh, ow, -1.0), 0, 0, rr, rc);
            merged.Done? && IsReduction(ms, rr, rc, oh, ow, Reduction(merged.value, Dropped(ms, rr, rc, oh, ow)))
  {
    ReduceKeptDone(ms, rr, rc, oh, ow);
    var cells := MatrixMerge(Kept(ms, rr, rc, oh, ow), Grid(oh, ow, -1.0), 0, 0, rr, rc).value;
    var r := Reduction(cells, Dropped(ms, rr, rc, oh, ow));
    assert |r.cells| == oh && (forall i :: 0 <= i < oh ==> |r.cells[i]| == ow);
    forall m | m in ms && Lands(m, rr, rc, oh, ow)
      ensures m.corr <= r.cells[m.row / rr][m.col / rc]
    {
      ReduceKeptCell(ms, rr, rc, oh, ow, m);
    }
    assert forall i, j :: 0 <= i < oh && 0 <= j < ow ==>
             && -1.0 <= r.cells[i][j]
             && (|| r.cells[i][j] == -1.0
                 || exists m :: m in ms && m.row / rr == i && m.col / rc == j && r.cells[i][j] == m.corr) by {
      ReduceKeptExplained(ms, rr, rc, oh, ow);
    }
  }

  /** The matches that land never leave the matrix. */
  lemma ReduceKeptDone(ms: seq<Match>, rr: nat, rc: nat, oh: nat, ow: nat)
    requires rr > 0 && rc > 0 && oh > 0
    ensures Rectangular(Grid(oh, ow, -1.0))
    ensures MatrixMerge(Kept(ms, rr, rc, oh, ow), Grid(oh, ow, -1.0), 0, 0, rr, rc).Done?
  {
    var kept := Kept(ms, rr, rc, oh, ow);
    var grid := Grid(oh, ow, -1.0);
    forall k | 0 <= k < |kept|
      ensures CellFits(grid, kept[k], 0, 0, rr, rc)
    {
      assert Lands(kept[k], rr, rc, oh, ow);
    }
  }

  /** One match that lands leaves its cell at least at its correlation. */
  lemma ReduceKeptCell(ms: seq<Match>, rr: nat, rc: nat, oh: nat, ow: nat, m: Match)
    requires rr > 0 && rc > 0 && oh > 0
    requires m in ms && Lands(m, rr, rc, oh, ow)
    ensures Rectangular(Grid(oh, ow, -1.0))
    ensures var merged := MatrixMerge(Kept(ms, rr, rc, oh, ow), Grid(oh, ow, -1.0), 0, 0, rr, rc);
            merged.Done? && m.row / rr < |merged.value| && m.col / rc < |merged.value[m.row / rr]|
            && m.corr <= merged.value[m.row / rr][m.col / rc]
  {
    ReduceKeptDone(ms, rr, rc, oh, ow);
    var kept := Kept(ms, rr, rc, oh, ow);
    var merged := MatrixMerge(kept, Grid(oh, ow, -1.0), 0, 0, rr, rc);
    assert m in kept;
    var k :| 0 <= k < |kept| && kept[k] == m;
    assert m.corr <= merged.value[CellRow(m, 0, rr)][CellCol(m, 0, rc)];
  }

  /** Every cell stays at -1.0 or holds the correlation of a match in it. */
  lemma ReduceKeptExplained(ms: seq<Match>, rr: nat, rc: nat, oh: nat, ow: nat)
    requires rr > 0 && rc > 0 && oh > 0
    ensures Rectangular(Grid(oh, ow, -1.0))
    ensures var merged := MatrixMerge(Kept(ms, rr, rc, oh, ow), Grid(oh, ow, -1.0), 0, 0, rr, rc);
            && SameShape(merged.State(), Grid(oh, ow, -1.0))
            && forall i, j :: 0 <= i < oh && 0 <= j < ow ==>
                 && -1.0 <= merged.State()[i][j]
                 && (|| merged.State()[i][j] == -1.0
                     || exists m :: m in ms && m.row / rr == i && m.col / rc == j && merged.State()[i][j] == m.corr)
  {
    var kept := Kept(ms, rr, rc, oh, ow);
    var grid := Grid(oh, ow, -1.0);
    var cells := MatrixMerge(kept, grid, 0, 0, rr, rc).State();
    forall i, j | 0 <= i < oh && 0 <= j < ow
      ensures -1.0 <= cells[i][j]
      ensures || cells[i][j] == -1.0
              || exists m :: m in ms && m.row / rr == i && m.col / rc == j && cells[i][j] == m.corr
    {
      assert CellExplained(grid, cells, kept, 0, 0, rr, rc, i, j);
      assert grid[i][j] == -1.0;
      if cells[i][j] != -1.0 {
        var k :| 0 <= k < |kept| && CellRow(kept[k], 0, rr) == i && CellCol(kept[k], 0, rc) == j
                 && cells[i][j] == kept[k].corr;
        assert kept[k] in ms;
      }
    }
  }

  /** What reduce_all_neighbors as written can do: finish, or write the
      cell of `culprit` outside its row (undefined behaviour). */
  datatype ReduceOutcome = Reduced(value: Reduction) | WroteOutside(culprit: Match)

  /** The loop of reduce_all_neighbors over `ms`, starting from `start`,
      with the drop test comparing the column with `colLimit`. */
  function ReduceLoop(ms: seq<Match>, start: seq<seq<real>>, rr: nat, rc: nat, oh: nat, ow: nat, colLimit: nat): (r: ReduceOutcome)
    requires rr > 0 && rc > 0
    requires |start| == oh && forall i :: 0 <= i < oh ==> |start[i]| == ow
    ensures r.Reduced? ==> |r.value.cells| == oh && forall i :: 0 <= i < oh ==> |r.value.cells[i]| == ow
    decreases |ms|
  {
    if |ms| == 0 then Reduced(Reduction(start, []))
    else
      var n := |ms| - 1;
      var before := ReduceLoop(ms[..n], start, rr, rc, oh, ow, colLimit);
      if before.WroteOutside? then before
      else
        var m := ms[n];
        var row := m.row / rr;
        var col := m.col / rc;
        var cells := before.value.cells;
        if row >= oh || col >= colLimit then Reduced(before.value.(dropped := before.value.dropped + [m]))
        else if col >= ow then WroteOutside(m)
        else Reduced(before.value.(cells := cells[row := cells[row][col := KeepGreater(cells[row][col], m.corr)]]))
  }

  /** reduce_all_neighbors as written: the drop test compares the matrix
      column with the output height instead of the output width. */
  function ReduceAllNeighborsAsWritten(queues: seq<Queue>, height: nat, width: nat, oh: nat, ow: nat): (r: ReduceOutcome)
    requires height > 0 && width > 0 && oh > 0 && ow > 0
    ensures r.Reduced? ==> |r.value.cells| == oh && forall i :: 0 <= i < oh ==> |r.value.cells[i]| == ow
  {
    ReduceLoop(Drained(queues), Grid(oh, ow, -1.0), CeilDiv(height, oh), CeilDiv(width, ow), oh, ow, oh)
  }

  /** With the column compared against a limit no greater than the output
      width, the loop never writes outside a row: it drops exactly the
      matches whose cell lies below row `oh` or right of column `colLimit`,
      and its matrix is the matrix merge of the others, in order. */
  lemma {:induction false} ReduceLoopWithin(ms: seq<Match>, start: seq<seq<real>>, rr: nat, rc: nat, oh: nat, ow: nat,
                                            colLimit: nat)
    requires rr > 0 && rc > 0 && oh > 0 && colLimit <= ow
    requires |start| == oh && forall i :: 0 <= i < oh ==> |start[i]| == ow
    ensures Rectangular(start)
    ensures var merged := MatrixMerge(Kept(ms, rr, rc, oh, colLimit), start, 0, 0, rr, rc);
            && merged.Done?
            && ReduceLoop(ms, start, rr, rc, oh, ow, colLimit)
               == Reduced(Reduction(merged.value, Dropped(ms, rr, rc, oh, colLimit)))
    decreases |ms|
  {
    if |ms| > 0 {
      var n := |ms| - 1;
      ReduceLoopWithin(ms[..n], start, rr, rc, oh, ow, colLimit);
      if Lands(ms[n], rr, rc, oh, colLimit) {
        ReduceLoopLandsStep(ms, start, rr, rc, oh, ow, colLimit);
      } else {
        ReduceLoopDropStep(ms, start, rr, rc, oh, ow, colLimit);
      }
    }
  }

  /** The step of ReduceLoopWithin for a last match that lands. */
  lemma ReduceLoopLandsStep(ms: seq<Match>, start: seq<seq<real>>, rr: nat, rc: nat, oh: nat, ow: nat, colLimit: nat)
    requires rr > 0 && rc > 0 && oh > 0 && |ms| > 0 && colLimit <= ow
    requires |start| == oh && forall i :: 0 <= i < oh ==> |start[i]| == ow
    requires Lands(ms[|ms| - 1], rr, rc, oh, colLimit)
    requires var before := MatrixMerge(Kept(ms[..|ms| - 1], rr, rc, oh, colLimit), start, 0, 0, rr, rc);
             && before.Done?
             && ReduceLoop(ms[..|ms| - 1], start, rr, rc, oh, ow, colLimit)
                == Reduced(Reduction(before.value, Dropped(ms[..|ms| - 1], rr, rc, oh, colLimit)))
    ensures var merged := MatrixMerge(Kept(ms, rr, rc, oh, colLimit), start, 0, 0, rr, rc);
            && merged.Done?
            && ReduceLoop(ms, start, rr, rc, oh, ow, colLimit)
               == Reduced(Reduction(merged.value, Dropped(ms, rr, rc, oh, colLimit)))
  {
    var n := |ms| - 1;
    var m := ms[n];
    var kept := Kept(ms, rr, rc, oh, colLimit);
    var keptBefore := Kept(ms[..n], rr, rc, oh, colLimit);
    var cells := MatrixMerge(keptBefore, start, 0, 0, rr, rc).value;
    assert kept == keptBefore + [m];
    MatrixMergeAppend(keptBefore, m, start, 0, 0, rr, rc);
    var i := m.row / rr;
    var j := m.col / rc;
    assert CellRow(m, 0, rr) == i && CellCol(m, 0, rc) == j;
    var updated := cells[i := cells[i][j := KeepGreater(cells[i][j], m.corr)]];
    assert MatrixMergeOne(cells, m, 0, 0, rr, rc) == Done(updated);
    var loopBefore := ReduceLoop(ms[..n], start, rr, rc, oh, ow, colLimit);
    assert ReduceLoop(ms, start, rr, rc, oh, ow, colLimit) == Reduced(loopBefore.value.(cells := updated));
    assert Dropped(ms, rr, rc, oh, colLimit) == Dropped(ms[..n], rr, rc, oh, colLimit);
  }

  /** The step of ReduceLoopWithin for a last match that does not land. */
  lemma ReduceLoopDropStep(ms: seq<Match>, start: seq<seq<real>>, rr: nat, rc: nat, oh: nat, ow: nat, colLimit: nat)
    requires rr > 0 && rc > 0 && oh > 0 && |ms| > 0 && colLimit <= ow
    requires |start| == oh && forall i :: 0 <= i < oh ==> |start[i]| == ow
    requires !Lands(ms[|ms| - 1], rr, rc, oh, colLimit)
    requires var before := MatrixMerge(Kept(ms[..|ms| - 1], rr, rc, oh, colLimit), start, 0, 0, rr, rc);
             && before.Done?
             && ReduceLoop(ms[..|ms| - 1], start, rr, rc, oh, ow, colLimit)
                == Reduced(Reduction(before.value, Dropped(ms[..|ms| - 1], rr, rc, oh, colLimit)))
    ensures var merged := MatrixMerge(Kept(ms, rr, rc, oh, colLimit), start, 0, 0, rr, rc);
            && merged.Done?
            && ReduceLoop(ms, start, rr, rc, oh, ow, colLimit)
               == Reduced(Reduction(merged.value, Dropped(ms, rr, rc, oh, colLimit)))
  {
    var n := |ms| - 1;
    assert Kept(ms, rr, rc, oh, colLimit) == Kept(ms[..n], rr, rc, oh, colLimit);
    assert Dropped(ms, rr, rc, oh, colLimit) == Dropped(ms[..n], rr, rc, oh, colLimit) + [ms[n]];
  }

  /** A match that passes a column test against `colLimit` although its
      cell lies right of the last column `ow - 1`. */
  predicate Escapes(m: Match, rr: nat, rc: nat, oh: nat, ow: nat, colLimit: nat)
    requires rr > 0 && rc > 0
  {
    m.row / rr < oh && ow <= m.col / rc < colLimit
  }

  /** With the column compared against a limit at least the output width,
      the loop writes outside a row exactly when some match escapes, and
      the match it stops at is one that does. */
  lemma {:induction false} ReduceLoopEscapes(ms: seq<Match>, start: seq<seq<real>>, rr: nat, rc: nat, oh: nat, ow: nat,
                                             colLimit: nat)
    requires rr > 0 && rc > 0 && ow <= colLimit
    requires |start| == oh && forall i :: 0 <= i < oh ==> |start[i]| == ow
    ensures var r := ReduceLoop(ms, start, rr, rc, oh, ow, colLimit);
            && (r.WroteOutside? <==> exists m :: m in ms && Escapes(m, rr, rc, oh, ow, colLimit))
            && (r.WroteOutside? ==> r.culprit in ms && Escapes(r.culprit, rr, rc, oh, ow, colLimit))
    decreases |ms|
  {
    if |ms| > 0 {
      var n := |ms| - 1;
      var prefix := ms[..n];
      ReduceLoopEscapes(prefix, start, rr, rc, oh, ow, colLimit);
      var before := ReduceLoop(prefix, start, rr, rc, oh, ow, colLimit);
      var r := ReduceLoop(ms, start, rr, rc, oh, ow, colLimit);
      var last := ms[n];
      if before.WroteOutside? {
        assert r == before;
        assert before.culprit in ms;
      } else if Escapes(last, rr, rc, oh, ow, colLimit) {
        assert r == WroteOutside(last);
      } else {
        assert r.Reduced?;
        forall x | x in ms
          ensures !Escapes(x, rr, rc, oh, ow, colLimit)
        {
          if x != last {
            var k :| 0 <= k < |ms| && ms[k] == x;
            assert prefix[k] == x;
          }
        }
      }
    }
  }

  /** The corrected reduction is what the loop computes once the column is
      compared with the output width. */
  lemma ReduceAllNeighborsIsFixedLoop(queues: seq<Queue>, height: nat, width: nat, oh: nat, ow: nat)
    requires height > 0 && width > 0 && oh > 0 && ow > 0
    ensures ReduceLoop(Drained(queues), Grid(oh, ow, -1.0), CeilDiv(height, oh), CeilDiv(width, ow), oh, ow, ow)
            == Reduced(ReduceAllNeighbors(queues, height, width, oh, ow))
  {
    ReduceLoopWithin(Drained(queues), Grid(oh, ow, -1.0), CeilDiv(height, oh), CeilDiv(width, ow), oh, ow, ow);
  }

  /** reduce_all_neighbors as written, for an output with no more rows than
      columns: it drops exactly the matches whose cell lies at or below row
      `oh` or at or right of column `oh` (the height), and merges the
      others into the matrix. */
  lemma ReduceAsWrittenWide(queues: seq<Queue>, height: nat, width: nat, oh: nat, ow: nat)
    requires height > 0 && width > 0 && 0 < oh <= ow
    ensures var rr := CeilDiv(height, oh);
            var rc := CeilDiv(width, ow);
            var ms := Drained(queues);
            var r := ReduceAllNeighborsAsWritten(queues, height, width, oh, ow);
            && r.Reduced?
            && (forall m :: m in r.value.dropped <==> m in ms && (m.row / rr >= oh || m.col / rc >= oh))
            && Rectangular(Grid(oh, ow, -1.0))
            && MatrixMerge(Kept(ms, rr, rc, oh, oh), Grid(oh, ow, -1.0), 0, 0, rr, rc).Done?
            && r.value.cells == MatrixMerge(Kept(ms, rr, rc, oh, oh), Grid(oh, ow, -1.0), 0, 0, rr, rc).value
  {
    ReduceLoopWithin(Drained(queues), Grid(oh, ow, -1.0), CeilDiv(height, oh), CeilDiv(width, ow), oh, ow, oh);
  }

  /** reduce_all_neighbors as written, for an output with more rows than
      columns: it writes outside a row exactly when some match lies in a
      row that fits and in a column between the width and the height of
      the output. */
  lemma ReduceAsWrittenTall(queues: seq<Queue>, height: nat, width: nat, oh: nat, ow: nat)
    requires height > 0 && width > 0 && 0 < ow < oh
    ensures var rr := CeilDiv(height, oh);
            var rc := CeilDiv(width, ow);
            var r := ReduceAllNeighborsAsWritten(queues, height, width, oh, ow);
            && (r.WroteOutside? <==> exists m :: m in Drained(queues) && m.row / rr < oh && ow <= m.col / rc < oh)
            && (r.WroteOutside? ==> r.culprit in Drained(queues) && r.culprit.row / rr < oh && ow <= r.culprit.col / rc < oh)
  {
    ReduceLoopEscapes(Drained(queues), Grid(oh, ow, -1.0), CeilDiv(height, oh), CeilDiv(width, ow), oh, ow, oh);
  }

  /** A match inside the profile (its column below `width`) always falls
      into one of the `ow` output columns, so the write outside a row needs
      a match from beyond the profile. */
  lemma InProfileColumnFits(col: nat, width: nat, ow: nat)
    requires 0 < ow && col < width
    ensures col / CeilDiv(width, ow) < ow
  {
    var rc := CeilDiv(width, ow);
    var q := col / rc;
    assert q * rc <= col;
    if q >= ow {
      MulMonotone(ow, q, rc);
      assert false;
    }
  }

  /** For a square output the code as written agrees with the corrected
      reduction. */
  lemma ReduceAsWrittenSquare(queues: seq<Queue>, height: nat, width: nat, side: nat)
    requires height > 0 && width > 0 && side > 0
    ensures ReduceAllNeighborsAsWritten(queues, height, width, side, side)
            == Reduced(ReduceAllNeighbors(queues, height, width, side, side))
  {
    ReduceAllNeighborsIsFixedLoop(queues, height, width, side, side);
  }

  /** Whenever the output has fewer rows than columns, the code as written
      drops a match that fits whenever some profile column falls into output
      column `oh`: the match in row 0 whose cell is column `oh` lies inside
      the profile and lands in the output, yet the loop as
      written drops it and leaves the matrix at its initial -1.0, while the
      corrected reduction raises that cell to the match's correlation. The
      smallest instance is a 1 by 2 profile reduced to 1 by 2 with the match
      in column 1. */
  lemma ReduceAsWrittenDropsFittingMatch(height: nat, width: nat, oh: nat, ow: nat, corr: real)
    requires height > 0 && width > 0 && 0 < oh < ow && oh * CeilDiv(width, ow) < width
    ensures var rr := CeilDiv(height, oh);
            var rc := CeilDiv(width, ow);
            var m := Match(corr, 0, oh * rc);
            && m.row < height && m.col < width
            && Lands(m, rr, rc, oh, ow)
            && ReduceAllNeighborsAsWritten([[m]], height, width, oh, ow) == Reduced(Reduction(Grid(oh, ow, -1.0), [m]))
            && ReduceAllNeighbors([[m]], height, width, oh, ow).dropped == []
            && ReduceAllNeighbors([[m]], height, width, oh, ow).cells[0][oh] == KeepGreater(-1.0, corr)
  {
    var rr := CeilDiv(height, oh);
    var rc := CeilDiv(width, ow);
    var m := Match(corr, 0, oh * rc);
    var queues := [[m]];
    var grid := Grid(oh, ow, -1.0);
    MulDivCancel(oh, rc);
    assert Drained(queues) == [m] by {
      assert Drained(queues[..0]) == [];
    }
    assert [m][..0] == [];
    assert ReduceLoop([], grid, rr, rc, oh, ow, oh) == Reduced(Reduction(grid, []));
    assert ReduceLoop([m], grid, rr, rc, oh, ow, oh) == Reduced(Reduction(grid, [m]));
    assert ReduceLoop([], grid, rr, rc, oh, ow, ow) == Reduced(Reduction(grid, []));
    var fixedCells := grid[0 := grid[0][oh := KeepGreater(grid[0][oh], corr)]];
    assert ReduceLoop([m], grid, rr, rc, oh, ow, ow) == Reduced(Reduction(fixedCells, []));
    ReduceAllNeighborsIsFixedLoop(queues, height, width, oh, ow);
  }

  lemma MulDivCancel(a: nat, b: nat)
    requires b > 0
    ensures (a * b) / b == a
  {
    var q := (a * b) / b;
    var r := (a * b) % b;
    assert a * b == q * b + r && 0 <= r < b;
    if q < a {
      MulMonotone(q + 1, a, b);
      assert false;
    } else if q > a {
      MulMonotone(a + 1, q, b);
      assert false;
    }
  }

  lemma MulMonotone(x: int, y: int, b: nat)
    requires x <= y
    ensures x * b <= y * b
  {
    assert y * b == x * b + (y - x) * b;
  }
}
