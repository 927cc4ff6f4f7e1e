/** Merging a tile's result into a full profile (src/common.cpp): the
    pointwise sum and max over a window, the bounded per-column match
    queues, the downsampled match matrix, profile allocation and the
    type-checked dispatch between them. */
module ProfileMerge {
  import opened ScampTypes
  import Config

  // ---------------------------------------------------------------------
  // Pointwise merges over a window
  // ---------------------------------------------------------------------

  /** Position `j` lies outside the window `[start, start + size)`. */
  predicate Outside(j: int, start: nat, size: nat) {
    j < start || start + size <= j
  }

  /** The loop shared by the pointwise merges: for `i` from 0 up to
      `size`, position `start + i` of `full` is combined with `tile[i]`. */
  function MergeWindow<T>(full: seq<T>, start: nat, size: nat, tile: seq<T>, combine: (T, T) -> T): (r: seq<T>)
    requires start + size <= |full| && size <= |tile|
    ensures |r| == |full|
    ensures forall j :: 0 <= j < |full| && Outside(j, start, size) ==> r[j] == full[j]
    ensures forall i :: 0 <= i < size ==> r[start + i] == combine(full[start + i], tile[i])
    decreases size
  {
    if size == 0 then full
    else
      var before := MergeWindow(full, start, size - 1, tile, combine);
      var p := start + size - 1;
      before[p := combine(before[p], tile[size - 1])]
  }

  /** elementwise_sum on doubles: the window gains the tile pointwise. */
  function ElementwiseSum(full: seq<real>, start: nat, size: nat, tile: seq<real>): (r: seq<real>)
    requires start + size <= |full| && size <= |tile|
    ensures |r| == |full|
    ensures forall j :: 0 <= j < |full| && Outside(j, start, size) ==> r[j] == full[j]
    ensures forall i :: 0 <= i < size ==> r[start + i] - full[start + i] == tile[i]
  {
    MergeWindow(full, start, size, tile, (a: real, b: real) => a + b)
  }

  /** elementwise_sum on 64-bit unsigned counters: the window gains the
      tile pointwise, wrapping around at 2^64. */
  function ElementwiseSumCounts(full: seq<nat>, start: nat, size: nat, tile: seq<nat>): (r: seq<nat>)
    requires start + size <= |full| && size <= |tile|
    ensures |r| == |full|
    ensures forall j :: 0 <= j < |full| && Outside(j, start, size) ==> r[j] == full[j]
    ensures forall i :: 0 <= i < size ==> r[start + i] == (full[start + i] + tile[i]) % Two64
  {
    var add := (a: nat, b: nat) => ((a + b) % Two64) as nat;
    var r := MergeWindow(full, start, size, tile, add);
    assert forall i :: 0 <= i < size ==> r[start + i] == add(full[start + i], tile[i]);
    r
  }

  /** The scalar comparison of elementwise_max: the stored value is replaced
      only by a strictly greater one. */
  function KeepGreater(stored: real, incoming: real): real {
    if stored < incoming then incoming else stored
  }

  /** Scalar elementwise_max: each window position ends at the larger of
      its old value and the tile's. */
  function ElementwiseMax(full: seq<real>, start: nat, size: nat, tile: seq<real>): (r: seq<real>)
    requires start + size <= |full| && size <= |tile|
    ensures |r| == |full|
    ensures forall j :: 0 <= j < |full| && Outside(j, start, size) ==> r[j] == full[j]
    ensures forall i :: 0 <= i < size ==>
              && full[start + i] <= r[start + i]
              && tile[i] <= r[start + i]
              && (r[start + i] == full[start + i] || r[start + i] == tile[i])
  {
    var r := MergeWindow(full, start, size, tile, KeepGreater);
    assert forall i :: 0 <= i < size ==> r[start + i] == KeepGreater(full[start + i], tile[i]);
    r
  }

  /** The packed comparison of elementwise_max: the stored entry is replaced
      only by a strictly greater correlation, and the incoming index is then
      rebased by `offset` in the entry's 32-bit index field. */
  function KeepGreaterEntry(offset: nat): (Entry, Entry) -> Entry {
    (stored: Entry, incoming: Entry) =>
      if stored.corr < incoming.corr then Entry(incoming.corr, WrapInt32(incoming.index + offset))
      else stored
  }

  /** Packed elementwise_max. A position changes only when the incoming
      correlation is strictly greater; it then holds the incoming
      correlation and the incoming index plus `offset`. Ties keep the
      stored entry. */
  function ElementwiseMaxPacked(full: seq<Entry>, start: nat, size: nat, tile: seq<Entry>, offset: nat): (r: seq<Entry>)
    requires start + size <= |full| && size <= |tile|
    ensures |r| == |full|
    ensures forall j :: 0 <= j < |full| && Outside(j, start, size) ==> r[j] == full[j]
    ensures forall i :: 0 <= i < size && full[start + i].corr < tile[i].corr ==>
              r[start + i] == Entry(tile[i].corr, WrapInt32(tile[i].index + offset))
    ensures forall i :: 0 <= i < size && tile[i].corr <= full[start + i].corr ==>
              r[start + i] == full[start + i]
  {
    var r := MergeWindow(full, start, size, tile, KeepGreaterEntry(offset));
    assert forall i :: 0 <= i < size ==> r[start + i] == KeepGreaterEntry(offset)(full[start + i], tile[i]);
    r
  }

  /** Merging the same tile twice with the scalar max is merging it once. */
  lemma ElementwiseMaxIdempotent(full: seq<real>, start: nat, size: nat, tile: seq<real>)
    requires start + size <= |full| && size <= |tile|
    ensures var once := ElementwiseMax(full, start, size, tile);
            ElementwiseMax(once, start, size, tile) == once
  {
    var once := ElementwiseMax(full, start, size, tile);
    var twice := ElementwiseMax(once, start, size, tile);
    forall j | 0 <= j < |once|
      ensures twice[j] == once[j]
    {
      if !Outside(j, start, size) {
        var i := j - start;
        assert tile[i] <= once[start + i];
      }
    }
  }

  /** Merging the same tile twice with the packed max is merging it once:
      the second pass only meets ties or better stored values. */
  lemma ElementwiseMaxPackedIdempotent(full: seq<Entry>, start: nat, size: nat, tile: seq<Entry>, offset: nat)
    requires start + size <= |full| && size <= |tile|
    ensures var once := ElementwiseMaxPacked(full, start, size, tile, offset);
            ElementwiseMaxPacked(once, start, size, tile, offset) == once
  {
    var once := ElementwiseMaxPacked(full, start, size, tile, offset);
    var twice := ElementwiseMaxPacked(once, start, size, tile, offset);
    forall j | 0 <= j < |once|
      ensures twice[j] == once[j]
    {
      if !Outside(j, start, size) {
        var i := j - start;
        assert tile[i].corr <= once[start + i].corr;
      }
    }
  }

  /** The order in which two tiles are max-merged does not matter. */
  lemma ElementwiseMaxCommutes(full: seq<real>, start: nat, size: nat, t1: seq<real>, t2: seq<real>)
    requires start + size <= |full| && size <= |t1| && size <= |t2|
    ensures ElementwiseMax(ElementwiseMax(full, start, size, t1), start, size, t2)
         == ElementwiseMax(ElementwiseMax(full, start, size, t2), start, size, t1)
  {
    var a1 := ElementwiseMax(full, start, size, t1);
    var a := ElementwiseMax(a1, start, size, t2);
    var b1 := ElementwiseMax(full, start, size, t2);
    var b := ElementwiseMax(b1, start, size, t1);
    forall j | 0 <= j < |full|
      ensures a[j] == b[j]
    {
      if !Outside(j, start, size) {
        var i := j - start;
        assert a[start + i] == KeepGreater(KeepGreater(full[j], t1[i]), t2[i]);
        assert b[start + i] == KeepGreater(KeepGreater(full[j], t2[i]), t1[i]);
      }
    }
  }

  // ---------------------------------------------------------------------
  // Bounded per-column match queues (match_merge)
  // ---------------------------------------------------------------------

  /** Pushes `m`; `place` is the heap discipline, choosing where in pop
      order the new element lands. */
  function Push(q: Queue, m: Match, place: (Queue, Match) -> nat): (r: Queue)
    ensures |r| == |q| + 1
    ensures multiset(r) == multiset(q) + multiset{m}
  {
    var k := if place(q, m) <= |q| then place(q, m) else |q|;
    assert q == q[..k] + q[k..];
    q[..k] + [m] + q[k..]
  }

  /** Removes the top. */
  function Pop(q: Queue): (r: Queue)
    requires |q| > 0
    ensures |r| == |q| - 1
    ensures multiset(r) == multiset(q) - multiset{q[0]}
  {
    assert q == [q[0]] + q[1..];
    q[1..]
  }

  /** A tile's match moved into full-profile coordinates. */
  function Shifted(m: Match, startRow: nat, startCol: nat): Match {
    Match(m.corr, m.row + startRow, m.col + startCol)
  }

  /** The shifted matches that `match_merge` sends to column `c`, in order. */
  function Targeting(matches: seq<Match>, startRow: nat, startCol: nat, c: int): (r: seq<Match>)
    ensures |r| <= |matches|
    ensures forall x :: x in r ==> x.col == c
    decreases |matches|
  {
    if |matches| == 0 then []
    else
      var last := matches[|matches| - 1];
      Targeting(matches[..|matches| - 1], startRow, startCol, c)
        + (if last.col + startCol == c then [Shifted(last, startRow, startCol)] else [])
  }

  /** One iteration of match_merge, on the queue of the match's column.
      Below capacity the match is pushed; at capacity it replaces the top
      only when the top's correlation is strictly smaller; otherwise the
      queue is left alone. */
  function MergeOneMatch(queues: seq<Queue>, m: Match, startRow: nat, startCol: nat,
                         capacity: nat, place: (Queue, Match) -> nat): (r: seq<Queue>)
    requires m.col + startCol < |queues|
    requires capacity == 0 ==> |queues[m.col + startCol]| > 0
    ensures |r| == |queues|
    ensures forall c :: 0 <= c < |queues| && c != m.col + startCol ==> r[c] == queues[c]
    ensures |queues[m.col + startCol]| <= |r[m.col + startCol]|
    ensures var c := m.col + startCol;
            var q := queues[c];
            var e := Shifted(m, startRow, startCol);
            && (|q| < capacity ==> multiset(r[c]) == multiset(q) + multiset{e})
            && (|q| == capacity && q[0].corr < m.corr ==>
                  |r[c]| == capacity && multiset(r[c]) == multiset(q) - multiset{q[0]} + multiset{e})
            && (capacity < |q| || (|q| == capacity && m.corr <= q[0].corr) ==> r[c] == q)
  {
    var c := m.col + startCol;
    var q := queues[c];
    var e := Shifted(m, startRow, startCol);
    if |q| == capacity && q[0].corr < m.corr then queues[c := Push(Pop(q), e, place)]
    else if |q| < capacity then queues[c := Push(q, e, place)]
    else queues
  }

  /** The conditions under which match_merge is defined: every match lands
      on an existing column, and with a capacity of zero no targeted queue
      is empty (its top would be read). */
  predicate MatchMergeDefined(matches: seq<Match>, queues: seq<Queue>, startCol: nat, maxMatches: int) {
    && -0x8000_0000_0000_0000 <= maxMatches < 0x8000_0000_0000_0000
    && (forall k :: 0 <= k < |matches| ==> matches[k].col + startCol < |queues|)
    && (AsUnsigned64(maxMatches) == 0 ==>
          forall k :: 0 <= k < |matches| ==> |queues[matches[k].col + startCol]| > 0)
  }

  /** How a queue may evolve when the matches `incoming` are offered to it
      with capacity `capacity`: it never shrinks; if it started within the
      capacity it stays within it; offered nothing it is unchanged; it holds
      nothing but old elements and offered matches; and while the capacity
      lasts it keeps every offered match. */
  predicate QueueEvolved(before: Queue, after: Queue, incoming: seq<Match>, capacity: nat) {
    && |before| <= |after|
    && (|before| <= capacity ==> |after| <= capacity)
    && (incoming == [] ==> after == before)
    && multiset(after) <= multiset(before) + multiset(incoming)
    && (|before| + |incoming| <= capacity ==> multiset(after) == multiset(before) + multiset(incoming))
  }

  /** match_merge: each match, shifted into full-profile coordinates, goes
      to the queue of its column, as MergeOneMatch says. The capacity is
      `maxMatches` as an unsigned comparison sees it, so a negative limit is
      effectively unbounded. No queue is added, removed or shortened;
      MatchMergeEvolves states what each queue ends up holding. */
  function MatchMerge(matches: seq<Match>, queues: seq<Queue>, startRow: nat, startCol: nat,
                      maxMatches: int, place: (Queue, Match) -> nat): (r: seq<Queue>)
    requires MatchMergeDefined(matches, queues, startCol, maxMatches)
    ensures |r| == |queues|
    ensures forall c :: 0 <= c < |queues| ==> |queues[c]| <= |r[c]|
    decreases |matches|
  {
    if |matches| == 0 then queues
    else
      var n := |matches| - 1;
      MatchMergePrefixDefined(matches, queues, startCol, maxMatches);
      var before := MatchMerge(matches[..n], queues, startRow, startCol, maxMatches, place);
      MergeOneMatch(before, matches[n], startRow, startCol, AsUnsigned64(maxMatches), place)
  }

  /** Every queue evolves under match_merge as QueueEvolved says, given
      the matches sent to its column. */
  lemma {:induction false} MatchMergeEvolves(matches: seq<Match>, queues: seq<Queue>, startRow: nat, startCol: nat,
                                             maxMatches: int, place: (Queue, Match) -> nat, c: nat)
    requires MatchMergeDefined(matches, queues, startCol, maxMatches)
    requires c < |queues|
    ensures QueueEvolved(queues[c], MatchMerge(matches, queues, startRow, startCol, maxMatches, place)[c],
                         Targeting(matches, startRow, startCol, c), AsUnsigned64(maxMatches))
    decreases |matches|
  {
    var cap := AsUnsigned64(maxMatches);
    if |matches| > 0 {
      var n := |matches| - 1;
      MatchMergePrefixDefined(matches, queues, startCol, maxMatches);
      var before := MatchMerge(matches[..n], queues, startRow, startCol, maxMatches, place);
      MatchMergeEvolves(matches[..n], queues, startRow, startCol, maxMatches, place, c);
      var after := MergeOneMatch(before, matches[n], startRow, startCol, cap, place);
      assert after == MatchMerge(matches, queues, startRow, startCol, maxMatches, place);
      OneMatchEffectHolds(before, after, matches[n], startRow, startCol, cap, place);
      MatchMergeColumn(matches, queues, startRow, startCol, cap, before, after, c);
    }
  }

  /** What one iteration of match_merge does, as the step proofs need it:
      only queue `c0` changes; below capacity it gains `e`; at or above
      capacity it is unchanged or, exactly at capacity, keeps its size and
      holds nothing but old elements and `e`. */
  predicate OneMatchEffect(before: seq<Queue>, after: seq<Queue>, c0: nat, e: Match, capacity: nat) {
    && c0 < |before|
    && |after| == |before|
    && (forall c :: 0 <= c < |before| && c != c0 ==> after[c] == before[c])
    && (|before[c0]| < capacity ==> multiset(after[c0]) == multiset(before[c0]) + multiset{e})
    && (capacity <= |before[c0]| ==>
          || after[c0] == before[c0]
          || (&& |before[c0]| == capacity
              && |after[c0]| == capacity
              && multiset(after[c0]) <= multiset(before[c0]) + multiset{e}))
  }

  lemma {:induction false} OneMatchEffectHolds(before: seq<Queue>, after: seq<Queue>, m: Match, startRow: nat,
                                               startCol: nat, capacity: nat, place: (Queue, Match) -> nat)
    requires m.col + startCol < |before|
    requires capacity == 0 ==> |before[m.col + startCol]| > 0
    requires after == MergeOneMatch(before, m, startRow, startCol, capacity, place)
    ensures OneMatchEffect(before, after, m.col + startCol, Shifted(m, startRow, startCol), capacity)
  {
    var q := before[m.col + startCol];
    if |q| == capacity && q[0].corr < m.corr {
      SubsetAfterReplace(multiset(q), q[0], Shifted(m, startRow, startCol));
    }
  }

  lemma SubsetAfterReplace(a: multiset<Match>, top: Match, e: Match)
    ensures a - multiset{top} + multiset{e} <= a + multiset{e}
  {
  }

  lemma {:induction false} MatchMergePrefixDefined(matches: seq<Match>, queues: seq<Queue>, startCol: nat, maxMatches: int)
    requires |matches| > 0
    requires MatchMergeDefined(matches, queues, startCol, maxMatches)
    ensures MatchMergeDefined(matches[..|matches| - 1], queues, startCol, maxMatches)
  {
    var n := |matches| - 1;
    assert forall k :: 0 <= k < n ==> matches[..n][k] == matches[k];
  }

  /** One more offered match keeps a queue within QueueEvolved. */
  lemma {:induction false} QueueEvolvedStep(before: Queue, mid: Queue, after: Queue, offered: seq<Match>, e: Match, capacity: nat)
    requires QueueEvolved(before, mid, offered, capacity)
    requires |mid| < capacity ==> multiset(after) == multiset(mid) + multiset{e}
    requires capacity <= |mid| ==>
               after == mid || (|mid| == capacity && |after| == |mid| && multiset(after) <= multiset(mid) + multiset{e})
    ensures QueueEvolved(before, after, offered + [e], capacity)
  {
    var incoming := offered + [e];
    assert multiset(incoming) == multiset(offered) + multiset{e};
    if |mid| < capacity {
      assert |after| == |multiset(after)| == |mid| + 1;
    }
    if |before| + |incoming| <= capacity {
      assert |multiset(mid)| == |before| + |offered|;
      assert |mid| < capacity;
    }
  }

  /** The inductive step of MatchMerge's contract, for one column. */
  lemma {:induction false} MatchMergeColumn(matches: seq<Match>, queues: seq<Queue>, startRow: nat, startCol: nat,
                                            cap: nat, before: seq<Queue>, after: seq<Queue>, c: nat)
    requires |matches| > 0 && |before| == |queues| && c < |queues|
    requires QueueEvolved(queues[c], before[c], Targeting(matches[..|matches| - 1], startRow, startCol, c), cap)
    requires OneMatchEffect(before, after, matches[|matches| - 1].col + startCol,
                            Shifted(matches[|matches| - 1], startRow, startCol), cap)
    ensures QueueEvolved(queues[c], after[c], Targeting(matches, startRow, startCol, c), cap)
  {
    var n := |matches| - 1;
    var c0 := matches[n].col + startCol;
    if c != c0 {
      assert after[c] == before[c];
      MatchMergeOtherColumn(matches, queues[c], startRow, startCol, cap, before[c], after[c], c);
    } else {
      MatchMergeTargetColumn(matches, queues[c], startRow, startCol, cap, before[c], after[c], c);
    }
  }

  /** A queue the last match does not target keeps what it had. */
  lemma MatchMergeOtherColumn(matches: seq<Match>, queue: Queue, startRow: nat, startCol: nat,
                              cap: nat, before: Queue, after: Queue, c: nat)
    requires |matches| > 0 && matches[|matches| - 1].col + startCol != c && after == before
    requires QueueEvolved(queue, before, Targeting(matches[..|matches| - 1], startRow, startCol, c), cap)
    ensures QueueEvolved(queue, after, Targeting(matches, startRow, startCol, c), cap)
  {
    assert Targeting(matches, startRow, startCol, c) == Targeting(matches[..|matches| - 1], startRow, startCol, c);
  }

  /** The queue the last match targets takes it as one more offer. */
  lemma MatchMergeTargetColumn(matches: seq<Match>, queue: Queue, startRow: nat, startCol: nat,
                               cap: nat, before: Queue, after: Queue, c: nat)
    requires |matches| > 0 && matches[|matches| - 1].col + startCol == c
    requires QueueEvolved(queue, before, Targeting(matches[..|matches| - 1], startRow, startCol, c), cap)
    requires var e := Shifted(matches[|matches| - 1], startRow, startCol);
             && (|before| < cap ==> multiset(after) == multiset(before) + multiset{e})
             && (cap <= |before| ==>
                   after == before || (|before| == cap && |after| == |before| && multiset(after) <= multiset(before) + multiset{e}))
    ensures QueueEvolved(queue, after, Targeting(matches, startRow, startCol, c), cap)
  {
    var n := |matches| - 1;
    var e := Shifted(matches[n], startRow, startCol);
    var tp := Targeting(matches[..n], startRow, startCol, c);
    assert Targeting(matches, startRow, startCol, c) == tp + [e];
    QueueEvolvedStep(queue, before, after, tp, e, cap);
  }

  // ---------------------------------------------------------------------
  // Downsampled match matrix (matrix_merge)
  // ---------------------------------------------------------------------

  /** A matrix with at least one row, all rows as long as the first. */
  predicate Rectangular(m: seq<seq<real>>) {
    |m| > 0 && forall i :: 0 <= i < |m| ==> |m[i]| == |m[0]|
  }

  predicate SameShape(a: seq<seq<real>>, b: seq<seq<real>>) {
    |a| == |b| && forall i :: 0 <= i < |a| ==> |a[i]| == |b[i]|
  }

  /** The matrix row a tile match falls into. */
  function CellRow(m: Match, startRow: nat, reducedRows: int): nat
    requires reducedRows > 0
  {
    (m.row + startRow) / reducedRows
  }

  /** The matrix column a tile match falls into. */
  function CellCol(m: Match, startCol: nat, reducedCols: int): nat
    requires reducedCols > 0
  {
    (m.col + startCol) / reducedCols
  }

  /** The cell of `m` lies inside the matrix (whose column count is read
      from its first row). */
  predicate CellFits(matrix: seq<seq<real>>, m: Match, startRow: nat, startCol: nat, reducedRows: int, reducedCols: int)
    requires |matrix| > 0 && reducedRows > 0 && reducedCols > 0
  {
    CellRow(m, startRow, reducedRows) < |matrix| && CellCol(m, startCol, reducedCols) < |matrix[0]|
  }

  /** One iteration of matrix_merge: a match outside the matrix throws;
      otherwise its cell keeps the greater of itself and the match's
      correlation. */
  function MatrixMergeOne(matrix: seq<seq<real>>, m: Match, startRow: nat, startCol: nat,
                          reducedRows: int, reducedCols: int): (r: Step<seq<seq<real>>>)
    requires Rectangular(matrix) && reducedRows > 0 && reducedCols > 0
    ensures SameShape(r.State(), matrix)
    ensures r.Done? <==> CellFits(matrix, m, startRow, startCol, reducedRows, reducedCols)
    ensures r.Threw? ==>
              r.partial == matrix
              && r.error == MatrixMergeOutOfRange(CellRow(m, startRow, reducedRows), CellCol(m, startCol, reducedCols))
    ensures r.Done? ==>
              var i := CellRow(m, startRow, reducedRows);
              var j := CellCol(m, startCol, reducedCols);
              && (forall a, b :: 0 <= a < |matrix| && 0 <= b < |matrix[a]| && (a, b) != (i, j) ==>
                    r.value[a][b] == matrix[a][b])
              && r.value[i][j] == KeepGreater(matrix[i][j], m.corr)
  {
    var i := CellRow(m, startRow, reducedRows);
    var j := CellCol(m, startCol, reducedCols);
    if i >= |matrix| || j >= |matrix[0]| then Threw(matrix, MatrixMergeOutOfRange(i, j))
    else Done(matrix[i := matrix[i][j := KeepGreater(matrix[i][j], m.corr)]])
  }

  /** The value of cell (i, j) of `result` is the original one or the
      correlation of a match that falls into that cell. */
  predicate CellExplained(matrix: seq<seq<real>>, result: seq<seq<real>>, matches: seq<Match>,
                          startRow: nat, startCol: nat, reducedRows: int, reducedCols: int, i: nat, j: nat)
    requires reducedRows > 0 && reducedCols > 0
    requires i < |matrix| && j < |matrix[i]| && SameShape(result, matrix)
  {
    || result[i][j] == matrix[i][j]
    || exists k :: 0 <= k < |matches| && CellRow(matches[k], startRow, reducedRows) == i
                   && CellCol(matches[k], startCol, reducedCols) == j && result[i][j] == matches[k].corr
  }

  /** `result` is `matrix` after merging exactly the matches `ms`: each of
      them fits and leaves its cell at least at its correlation, no cell
      decreases, and every cell holds its old value or the correlation of
      one of them that fell into it. */
  predicate MergedPart(matrix: seq<seq<real>>, result: seq<seq<real>>, ms: seq<Match>,
                       startRow: nat, startCol: nat, reducedRows: int, reducedCols: int)
    requires Rectangular(matrix) && reducedRows > 0 && reducedCols > 0 && SameShape(result, matrix)
  {
    && (forall l :: 0 <= l < |ms| ==>
          && CellFits(matrix, ms[l], startRow, startCol, reducedRows, reducedCols)
          && ms[l].corr <= result[CellRow(ms[l], startRow, reducedRows)][CellCol(ms[l], startCol, reducedCols)])
    && (forall i, j :: 0 <= i < |matrix| && 0 <= j < |matrix[i]| ==>
          && matrix[i][j] <= result[i][j]
          && CellExplained(matrix, result, ms, startRow, startCol, reducedRows, reducedCols, i, j))
  }

  /** matrix_merge: every match goes to the cell
      ((row + startRow) / reducedRows, (col + startCol) / reducedCols). The
      matrix shape never changes. It throws exactly when some match falls
      outside the matrix, naming the cell of the first such match, and
      leaves the matrix as the matches before that one made it
      (MatrixMergeThrowState). No cell ever decreases, every cell
      holds its old value or a correlation that fell into it, and on
      success every cell is at least every correlation that fell into it. */
  function MatrixMerge(matches: seq<Match>, matrix: seq<seq<real>>, startRow: nat, startCol: nat,
                       reducedRows: int, reducedCols: int): (r: Step<seq<seq<real>>>)
    requires Rectangular(matrix) && reducedRows > 0 && reducedCols > 0
    ensures SameShape(r.State(), matrix)
    ensures r.Done? <==>
              forall k :: 0 <= k < |matches| ==> CellFits(matrix, matches[k], startRow, startCol, reducedRows, reducedCols)
    ensures r.Threw? ==>
              exists k :: 0 <= k < |matches|
                && !CellFits(matrix, matches[k], startRow, startCol, reducedRows, reducedCols)
                && (forall l :: 0 <= l < k ==> CellFits(matrix, matches[l], startRow, startCol, reducedRows, reducedCols))
                && r.error == MatrixMergeOutOfRange(CellRow(matches[k], startRow, reducedRows),
                                                    CellCol(matches[k], startCol, reducedCols))
    ensures forall i, j :: 0 <= i < |matrix| && 0 <= j < |matrix[i]| ==> matrix[i][j] <= r.State()[i][j]
    ensures forall i, j :: 0 <= i < |matrix| && 0 <= j < |matrix[i]| ==>
              CellExplained(matrix, r.State(), matches, startRow, startCol, reducedRows, reducedCols, i, j)
    ensures r.Done? ==>
              forall k :: 0 <= k < |matches| ==>
                matches[k].corr <= r.value[CellRow(matches[k], startRow, reducedRows)][CellCol(matches[k], startCol, reducedCols)]
    decreases |matches|
  {
    if |matches| == 0 then Done(matrix)
    else
      var n := |matches| - 1;
      var before := MatrixMerge(matches[..n], matrix, startRow, startCol, reducedRows, reducedCols);
      MatrixMergeControlStep(matches, matrix, startRow, startCol, reducedRows, reducedCols, before);
      MatrixMergeCellStep(matches, matrix, startRow, startCol, reducedRows, reducedCols, before);
      MatrixMergeBoundStep(matches, matrix, startRow, startCol, reducedRows, reducedCols, before);
      MatrixMergeLast(matches, startRow, startCol, reducedRows, reducedCols, before)
  }

  /** The matrix after the last match of `matches`, given the matrix after
      the others. */
  function MatrixMergeLast(matches: seq<Match>, startRow: nat, startCol: nat, reducedRows: int, reducedCols: int,
                           before: Step<seq<seq<real>>>): Step<seq<seq<real>>>
    requires |matches| > 0 && Rectangular(before.State()) && reducedRows > 0 && reducedCols > 0
  {
    if before.Threw? then before
    else MatrixMergeOne(before.value, matches[|matches| - 1], startRow, startCol, reducedRows, reducedCols)
  }

  /** Merging one more match after a successful merge is one more step of
      the loop. */
  lemma MatrixMergeAppend(matches: seq<Match>, m: Match, matrix: seq<seq<real>>, startRow: nat, startCol: nat,
                          reducedRows: int, reducedCols: int)
    requires Rectangular(matrix) && reducedRows > 0 && reducedCols > 0
    requires MatrixMerge(matches, matrix, startRow, startCol, reducedRows, reducedCols).Done?
    ensures MatrixMerge(matches + [m], matrix, startRow, startCol, reducedRows, reducedCols)
            == MatrixMergeOne(MatrixMerge(matches, matrix, startRow, startCol, reducedRows, reducedCols).value,
                              m, startRow, startCol, reducedRows, reducedCols)
  {
    assert (matches + [m])[..|matches|] == matches;
  }

  /** The inductive step of MatrixMerge's shape and throw behaviour. */
  lemma {:induction false} MatrixMergeControlStep(matches: seq<Match>, matrix: seq<seq<real>>, startRow: nat,
                                                  startCol: nat, reducedRows: int, reducedCols: int,
                                                  before: Step<seq<seq<real>>>)
    requires |matches| > 0
    requires Rectangular(matrix) && reducedRows > 0 && reducedCols > 0
    requires var prefix := matches[..|matches| - 1];
             && SameShape(before.State(), matrix)
             && (before.Done? <==>
                   forall k :: 0 <= k < |prefix| ==> CellFits(matrix, prefix[k], startRow, startCol, reducedRows, reducedCols))
             && (before.Threw? ==>
                   exists k :: 0 <= k < |prefix|
                     && !CellFits(matrix, prefix[k], startRow, startCol, reducedRows, reducedCols)
                     && (forall l :: 0 <= l < k ==> CellFits(matrix, prefix[l], startRow, startCol, reducedRows, reducedCols))
                     && before.error == MatrixMergeOutOfRange(CellRow(prefix[k], startRow, reducedRows),
                                                              CellCol(prefix[k], startCol, reducedCols)))
    ensures Rectangular(before.State())
    ensures var r := MatrixMergeLast(matches, startRow, startCol, reducedRows, reducedCols, before);
            && SameShape(r.State(), matrix)
            && (r.Done? <==>
                  forall k :: 0 <= k < |matches| ==> CellFits(matrix, matches[k], startRow, startCol, reducedRows, reducedCols))
            && (r.Threw? ==>
                  exists k :: 0 <= k < |matches|
                    && !CellFits(matrix, matches[k], startRow, startCol, reducedRows, reducedCols)
                    && (forall l :: 0 <= l < k ==> CellFits(matrix, matches[l], startRow, startCol, reducedRows, reducedCols))
                    && r.error == MatrixMergeOutOfRange(CellRow(matches[k], startRow, reducedRows),
                                                        CellCol(matches[k], startCol, reducedCols)))
  {
    var n := |matches| - 1;
    var prefix := matches[..n];
    assert forall k :: 0 <= k < n ==> prefix[k] == matches[k];
    var cur := before.State();
    assert |cur[0]| == |matrix[0]|;
    if before.Threw? {
      var k :| 0 <= k < |prefix|
               && !CellFits(matrix, prefix[k], startRow, startCol, reducedRows, reducedCols)
               && (forall l :: 0 <= l < k ==> CellFits(matrix, prefix[l], startRow, startCol, reducedRows, reducedCols))
               && before.error == MatrixMergeOutOfRange(CellRow(prefix[k], startRow, reducedRows),
                                                        CellCol(prefix[k], startCol, reducedCols));
      assert prefix[k] == matches[k];
    } else {
      var m := matches[n];
      assert CellFits(cur, m, startRow, startCol, reducedRows, reducedCols)
         <==> CellFits(matrix, m, startRow, startCol, reducedRows, reducedCols);
    }
  }

  /** The inductive step of MatrixMerge's statements about cell values. */
  lemma {:induction false} MatrixMergeCellStep(matches: seq<Match>, matrix: seq<seq<real>>, startRow: nat,
                                               startCol: nat, reducedRows: int, reducedCols: int,
                                               before: Step<seq<seq<real>>>)
    requires |matches| > 0
    requires Rectangular(matrix) && reducedRows > 0 && reducedCols > 0
    requires var prefix := matches[..|matches| - 1];
             && SameShape(before.State(), matrix)
             && (forall i, j :: 0 <= i < |matrix| && 0 <= j < |matrix[i]| ==> matrix[i][j] <= before.State()[i][j])
             && (forall i, j :: 0 <= i < |matrix| && 0 <= j < |matrix[i]| ==>
                   CellExplained(matrix, before.State(), prefix, startRow, startCol, reducedRows, reducedCols, i, j))
    ensures Rectangular(before.State())
    ensures var r := MatrixMergeLast(matches, startRow, startCol, reducedRows, reducedCols, before);
            && SameShape(r.State(), matrix)
            && (forall i, j :: 0 <= i < |matrix| && 0 <= j < |matrix[i]| ==> matrix[i][j] <= r.State()[i][j])
            && (forall i, j :: 0 <= i < |matrix| && 0 <= j < |matrix[i]| ==>
                  CellExplained(matrix, r.State(), matches, startRow, startCol, reducedRows, reducedCols, i, j))
  {
    var n := |matches| - 1;
    var prefix := matches[..n];
    var cur := before.State();
    assert |cur[0]| == |matrix[0]|;
    var r := MatrixMergeLast(matches, startRow, startCol, reducedRows, reducedCols, before);
    forall i, j | 0 <= i < |matrix| && 0 <= j < |matrix[i]|
      ensures matrix[i][j] <= r.State()[i][j]
      ensures CellExplained(matrix, r.State(), matches, startRow, startCol, reducedRows, reducedCols, i, j)
    {
      MatrixMergeCell(matches, matrix, startRow, startCol, reducedRows, reducedCols, before, i, j);
    }
  }

  /** MatrixMergeCellStep for one cell. */
  lemma {:induction false} MatrixMergeCell(matches: seq<Match>, matrix: seq<seq<real>>, startRow: nat,
                                           startCol: nat, reducedRows: int, reducedCols: int,
                                           before: Step<seq<seq<real>>>, i: nat, j: nat)
    requires |matches| > 0
    requires Rectangular(matrix) && reducedRows > 0 && reducedCols > 0
    requires SameShape(before.State(), matrix) && Rectangular(before.State())
    requires i < |matrix| && j < |matrix[i]|
    requires matrix[i][j] <= before.State()[i][j]
    requires CellExplained(matrix, before.State(), matches[..|matches| - 1], startRow, startCol, reducedRows, reducedCols, i, j)
    ensures var r := MatrixMergeLast(matches, startRow, startCol, reducedRows, reducedCols, before);
            && SameShape(r.State(), matrix)
            && matrix[i][j] <= r.State()[i][j]
            && CellExplained(matrix, r.State(), matches, startRow, startCol, reducedRows, reducedCols, i, j)
  {
    var n := |matches| - 1;
    var prefix := matches[..n];
    var cur := before.State();
    var r := MatrixMergeLast(matches, startRow, startCol, reducedRows, reducedCols, before);
    if cur[i][j] != matrix[i][j] {
      var k :| 0 <= k < |prefix| && CellRow(prefix[k], startRow, reducedRows) == i
               && CellCol(prefix[k], startCol, reducedCols) == j && cur[i][j] == prefix[k].corr;
      assert prefix[k] == matches[k];
    }
    if r.Done? && before.Done? {
      var m := matches[n];
      if (i, j) == (CellRow(m, startRow, reducedRows), CellCol(m, startCol, reducedCols)) && cur[i][j] < m.corr {
        assert r.value[i][j] == matches[n].corr;
      } else {
        assert r.value[i][j] == cur[i][j];
      }
    }
  }

  /** A throw of matrix_merge leaves the matrix exactly as the matches
      before the one that does not fit made it: no match after it has
      touched the matrix, and every match before it has. */
  lemma {:induction false} MatrixMergeThrowState(matches: seq<Match>, matrix: seq<seq<real>>, startRow: nat,
                                                 startCol: nat, reducedRows: int, reducedCols: int)
    requires Rectangular(matrix) && reducedRows > 0 && reducedCols > 0
    ensures var r := MatrixMerge(matches, matrix, startRow, startCol, reducedRows, reducedCols);
            r.Threw? ==>
              exists k :: 0 <= k < |matches|
                && !CellFits(matrix, matches[k], startRow, startCol, reducedRows, reducedCols)
                && MergedPart(matrix, r.partial, matches[..k], startRow, startCol, reducedRows, reducedCols)
    decreases |matches|
  {
    if |matches| > 0 {
      var n := |matches| - 1;
      MatrixMergeThrowState(matches[..n], matrix, startRow, startCol, reducedRows, reducedCols);
      var before := MatrixMerge(matches[..n], matrix, startRow, startCol, reducedRows, reducedCols);
      MatrixMergePartialStep(matches, matrix, startRow, startCol, reducedRows, reducedCols, before);
    }
  }

  /** The inductive step of MatrixMergeThrowState. */
  lemma {:induction false} MatrixMergePartialStep(matches: seq<Match>, matrix: seq<seq<real>>, startRow: nat,
                                                  startCol: nat, reducedRows: int, reducedCols: int,
                                                  before: Step<seq<seq<real>>>)
    requires |matches| > 0
    requires Rectangular(matrix) && reducedRows > 0 && reducedCols > 0
    requires var prefix := matches[..|matches| - 1];
             && SameShape(before.State(), matrix)
             && (before.Done? ==>
                   && (forall k :: 0 <= k < |prefix| ==>
                         && CellFits(matrix, prefix[k], startRow, startCol, reducedRows, reducedCols)
                         && prefix[k].corr <= before.value[CellRow(prefix[k], startRow, reducedRows)][CellCol(prefix[k], startCol, reducedCols)])
                   && (forall i, j :: 0 <= i < |matrix| && 0 <= j < |matrix[i]| ==>
                         && matrix[i][j] <= before.value[i][j]
                         && CellExplained(matrix, before.value, prefix, startRow, startCol, reducedRows, reducedCols, i, j)))
             && (before.Threw? ==>
                   exists k :: 0 <= k < |prefix|
                     && !CellFits(matrix, prefix[k], startRow, startCol, reducedRows, reducedCols)
                     && MergedPart(matrix, before.partial, prefix[..k], startRow, startCol, reducedRows, reducedCols))
    ensures Rectangular(before.State())
    ensures var r := MatrixMergeLast(matches, startRow, startCol, reducedRows, reducedCols, before);
            && SameShape(r.State(), matrix)
            && (r.Threw? ==>
                  exists k :: 0 <= k < |matches|
                    && !CellFits(matrix, matches[k], startRow, startCol, reducedRows, reducedCols)
                    && MergedPart(matrix, r.partial, matches[..k], startRow, startCol, reducedRows, reducedCols))
  {
    var n := |matches| - 1;
    var prefix := matches[..n];
    var cur := before.State();
    assert |cur[0]| == |matrix[0]|;
    var r := MatrixMergeLast(matches, startRow, startCol, reducedRows, reducedCols, before);
    if before.Threw? {
      var k :| 0 <= k < |prefix|
               && !CellFits(matrix, prefix[k], startRow, startCol, reducedRows, reducedCols)
               && MergedPart(matrix, before.partial, prefix[..k], startRow, startCol, reducedRows, reducedCols);
      assert prefix[k] == matches[k];
      assert prefix[..k] == matches[..k];
    } else if r.Threw? {
      assert matches[..n] == prefix;
      assert r.partial == before.value;
      assert MergedPart(matrix, before.value, prefix, startRow, startCol, reducedRows, reducedCols);
      assert !CellFits(cur, matches[n], startRow, startCol, reducedRows, reducedCols);
    }
  }

  /** The inductive step of MatrixMerge's bound on successful merges. */
  lemma {:induction false} MatrixMergeBoundStep(matches: seq<Match>, matrix: seq<seq<real>>, startRow: nat,
                                                startCol: nat, reducedRows: int, reducedCols: int,
                                                before: Step<seq<seq<real>>>)
    requires |matches| > 0
    requires Rectangular(matrix) && reducedRows > 0 && reducedCols > 0
    requires var prefix := matches[..|matches| - 1];
             && SameShape(before.State(), matrix)
             && (before.Done? ==>
                   forall k :: 0 <= k < |prefix| ==>
                     && CellFits(matrix, prefix[k], startRow, startCol, reducedRows, reducedCols)
                     && prefix[k].corr <= before.value[CellRow(prefix[k], startRow, reducedRows)][CellCol(prefix[k], startCol, reducedCols)])
    ensures Rectangular(before.State())
    ensures var r := MatrixMergeLast(matches, startRow, startCol, reducedRows, reducedCols, before);
            && SameShape(r.State(), matrix)
            && (r.Done? ==>
                  forall k :: 0 <= k < |matches| ==>
                    && CellFits(matrix, matches[k], startRow, startCol, reducedRows, reducedCols)
                    && matches[k].corr <= r.value[CellRow(matches[k], startRow, reducedRows)][CellCol(matches[k], startCol, reducedCols)])
  {
    var n := |matches| - 1;
    var prefix := matches[..n];
    var cur := before.State();
    assert |cur[0]| == |matrix[0]|;
    var r := MatrixMergeLast(matches, startRow, startCol, reducedRows, reducedCols, before);
    if r.Done? {
      forall k | 0 <= k < |matches|
        ensures CellFits(matrix, matches[k], startRow, startCol, reducedRows, reducedCols)
        ensures matches[k].corr <= r.value[CellRow(matches[k], startRow, reducedRows)][CellCol(matches[k], startCol, reducedCols)]
      {
        if k < n {
          assert prefix[k] == matches[k];
        }
      }
    }
  }

  // ---------------------------------------------------------------------
  // Allocation (Profile::Alloc)
  // ---------------------------------------------------------------------

  /** `std::vector::resize`: the first `n` old elements are kept and any
      new positions take `fill`. */
  function Resize<T>(s: seq<T>, n: nat, fill: T): (r: seq<T>)
    ensures |r| == n
    ensures forall i :: 0 <= i < n && i < |s| ==> r[i] == s[i]
    ensures forall i :: |s| <= i < n ==> r[i] == fill
  {
    if n <= |s| then s[..n] else s + seq(n - |s|, _ => fill)
  }

  /** `s` holds exactly `n` copies of `v`. */
  predicate AllFill<T(==)>(s: seq<T>, n: nat, v: T) {
    |s| == n && forall i :: 0 <= i < n ==> s[i] == v
  }

  /** The kinds Alloc gives storage to and MergeTileToProfile can merge;
      k-NN and multi-dimensional 1NN are not implemented. */
  predicate Supported(kind: ProfileType) {
    kind in {SumThresh, OneNN, OneNNIndex, FrequencyThresh, ApproxAllNeighbors}
  }

  /** The entry a fresh 1NN_INDEX profile holds: no match yet. */
  const AllocEntry := Entry(AllocSentinel, -1)

  /** Profile::Alloc: appends a storage record and resizes the first one's
      vector for the profile's kind to `size` (or, for the matrix output,
      to `matrixHeight` rows of `matrixWidth` cells), in place: the other
      fields of that record and its first elements are kept. A profile with no
      storage yet thus gets `size` sentinels (-2.0, index -1) for
      1NN_INDEX, `size` values -2.0 for 1NN, `size` zeros for SUM_THRESH
      and FREQUENCY_THRESH, `size` empty queues for the queue output, and
      a `matrixHeight` by `matrixWidth` matrix of -2.0. Other kinds get
      nothing. */
  function Alloc(p: Profile, size: nat): (r: Profile)
    ensures r.kind == p.kind && r.outputMatrix == p.outputMatrix
    ensures r.matrixHeight == p.matrixHeight && r.matrixWidth == p.matrixWidth
    ensures r.reducedRows == p.reducedRows && r.reducedCols == p.reducedCols
    ensures !Supported(p.kind) ==> r == p
    ensures Supported(p.kind) ==> |r.data| == |p.data| + 1
    ensures Supported(p.kind) && |p.data| > 0 ==>
              r.data[|p.data|] == EmptyData && forall k :: 1 <= k < |p.data| ==> r.data[k] == p.data[k]
    ensures Supported(p.kind) && |p.data| > 0 ==>
              var d := p.data[0];
              && (p.kind == SumThresh ==> r.data[0] == d.(doubleValue := Resize(d.doubleValue, size, 0.0)))
              && (p.kind == OneNN ==> r.data[0] == d.(floatValue := Resize(d.floatValue, size, AllocSentinel)))
              && (p.kind == OneNNIndex ==> r.data[0] == d.(packedValue := Resize(d.packedValue, size, AllocEntry)))
              && (p.kind == FrequencyThresh ==> r.data[0] == d.(countValue := Resize(d.countValue, size, 0)))
              && (p.kind == ApproxAllNeighbors && !p.outputMatrix ==>
                    r.data[0] == d.(matchValue := Resize(d.matchValue, size, [])))
              && (p.kind == ApproxAllNeighbors && p.outputMatrix ==>
                    r.data[0] == d.(matrixValue := Resize(d.matrixValue, p.matrixHeight, seq(p.matrixWidth, _ => AllocSentinel))))
    ensures |p.data| == 0 && p.kind == OneNNIndex ==>
              r.data == [EmptyData.(packedValue := r.data[0].packedValue)] && AllFill(r.data[0].packedValue, size, AllocEntry)
    ensures |p.data| == 0 && p.kind == OneNN ==>
              r.data == [EmptyData.(floatValue := r.data[0].floatValue)] && AllFill(r.data[0].floatValue, size, AllocSentinel)
    ensures |p.data| == 0 && p.kind == SumThresh ==>
              r.data == [EmptyData.(doubleValue := r.data[0].doubleValue)] && AllFill(r.data[0].doubleValue, size, 0.0)
    ensures |p.data| == 0 && p.kind == FrequencyThresh ==>
              r.data == [EmptyData.(countValue := r.data[0].countValue)] && AllFill(r.data[0].countValue, size, 0)
    ensures |p.data| == 0 && p.kind == ApproxAllNeighbors && !p.outputMatrix ==>
              r.data == [EmptyData.(matchValue := r.data[0].matchValue)] && AllFill(r.data[0].matchValue, size, [])
    ensures |p.data| == 0 && p.kind == ApproxAllNeighbors && p.outputMatrix ==>
              && r.data == [EmptyData.(matrixValue := r.data[0].matrixValue)]
              && |r.data[0].matrixValue| == p.matrixHeight
              && forall i :: 0 <= i < p.matrixHeight ==>
                   AllFill(r.data[0].matrixValue[i], p.matrixWidth, AllocSentinel)
  {
    if !Supported(p.kind) then p
    else
      var data := p.data + [EmptyData];
      var d := data[0];
      var d' := match p.kind
        case SumThresh => d.(doubleValue := Resize(d.doubleValue, size, 0.0))
        case OneNN => d.(floatValue := Resize(d.floatValue, size, AllocSentinel))
        case OneNNIndex => d.(packedValue := Resize(d.packedValue, size, AllocEntry))
        case FrequencyThresh => d.(countValue := Resize(d.countValue, size, 0))
        case ApproxAllNeighbors =>
          if p.outputMatrix then
            d.(matrixValue := Resize(d.matrixValue, p.matrixHeight, seq(p.matrixWidth, _ => AllocSentinel)))
          else d.(matchValue := Resize(d.matchValue, size, []))
        case _ => d;
      p.(data := data[0 := d'])
  }

  // ---------------------------------------------------------------------
  // Merging a tile (Profile::MergeTileToProfile)
  // ---------------------------------------------------------------------

  /** What MergeTileToProfile needs of its callers once the kinds agree and
      are supported: both profiles have storage; the window
      `[position, position + length)` lies inside the profile's vector and
      the tile holds `length` values; the matrix is non-empty and
      rectangular with positive reduction factors; and the queue merge is
      defined. */
  predicate MergeDefined(p: Profile, tile: Profile, maxMatches: int, position: nat, length: nat) {
    p.kind == tile.kind && Supported(p.kind) ==>
      && |p.data| > 0 && |tile.data| > 0
      && (p.kind == SumThresh ==>
            position + length <= |p.data[0].doubleValue| && length <= |tile.data[0].doubleValue|)
      && (p.kind == OneNNIndex ==>
            position + length <= |p.data[0].packedValue| && length <= |tile.data[0].packedValue|)
      && (p.kind == OneNN ==>
            position + length <= |p.data[0].floatValue| && length <= |tile.data[0].floatValue|)
      && (p.kind == FrequencyThresh ==>
            position + length <= |p.data[0].countValue| && length <= |tile.data[0].countValue|)
      && (p.kind == ApproxAllNeighbors && p.outputMatrix ==>
            Rectangular(p.data[0].matrixValue) && p.reducedRows > 0 && p.reducedCols > 0)
      && (p.kind == ApproxAllNeighbors && !p.outputMatrix ==>
            MatchMergeDefined(tile.data[0].unorderedMatches, p.data[0].matchValue, position, maxMatches))
  }

  /** Profile::MergeTileToProfile: merges the result of the tile whose
      columns start at `position` and whose rows start at `indexStart`.
      Profiles of different kinds, and the unimplemented kinds, are
      refused with the profile untouched. Otherwise exactly one field of the
      first storage record changes, the one the kind selects: SUM_THRESH
      adds, FREQUENCY_THRESH adds modulo 2^64, 1NN keeps the maximum,
      1NN_INDEX keeps the maximum and rebases the winning index by
      `indexStart`, and ALL_NEIGHBORS feeds the tile's matches into the
      matrix or the per-column queues (capacity `info.maxMatchesPerColumn`).
      Only the matrix merge can throw after that, when a match falls
      outside the matrix. */
  function MergeTileToProfile(p: Profile, tile: Profile, info: Config.OpInfo, position: nat, length: nat,
                              indexStart: nat, place: (Queue, Match) -> nat): (r: Step<Profile>)
    requires MergeDefined(p, tile, info.maxMatchesPerColumn, position, length)
    ensures p.kind != tile.kind ==> r == Threw(p, ProfileTypesDiffer)
    ensures p.kind == tile.kind && !Supported(p.kind) ==> r == Threw(p, Unimplemented)
    ensures r.State() == p.(data := r.State().data) && |r.State().data| == |p.data|
    ensures forall k :: 1 <= k < |p.data| ==> r.State().data[k] == p.data[k]
    ensures r.Done? <==>
              && p.kind == tile.kind && Supported(p.kind)
              && (p.kind == ApproxAllNeighbors && p.outputMatrix ==>
                    forall k :: 0 <= k < |tile.data[0].unorderedMatches| ==>
                      CellFits(p.data[0].matrixValue, tile.data[0].unorderedMatches[k], indexStart, position,
                               p.reducedRows, p.reducedCols))
    ensures p.kind == tile.kind == SumThresh ==>
              var d := r.State().data[0];
              && d == p.data[0].(doubleValue := d.doubleValue)
              && d.doubleValue == ElementwiseSum(p.data[0].doubleValue, position, length, tile.data[0].doubleValue)
    ensures p.kind == tile.kind == FrequencyThresh ==>
              var d := r.State().data[0];
              && d == p.data[0].(countValue := d.countValue)
              && d.countValue == ElementwiseSumCounts(p.data[0].countValue, position, length, tile.data[0].countValue)
    ensures p.kind == tile.kind == OneNN ==>
              var d := r.State().data[0];
              && d == p.data[0].(floatValue := d.floatValue)
              && d.floatValue == ElementwiseMax(p.data[0].floatValue, position, length, tile.data[0].floatValue)
    ensures p.kind == tile.kind == OneNNIndex ==>
              var d := r.State().data[0];
              && d == p.data[0].(packedValue := d.packedValue)
              && d.packedValue
                 == ElementwiseMaxPacked(p.data[0].packedValue, position, length, tile.data[0].packedValue, indexStart)
    ensures p.kind == tile.kind == ApproxAllNeighbors && p.outputMatrix ==>
              var d := r.State().data[0];
              && d == p.data[0].(matrixValue := d.matrixValue)
              && d.matrixValue
                 == MatrixMerge(tile.data[0].unorderedMatches, p.data[0].matrixValue, indexStart, position,
                                p.reducedRows, p.reducedCols).State()
    ensures p.kind == tile.kind == ApproxAllNeighbors && !p.outputMatrix ==>
              var d := r.State().data[0];
              && d == p.data[0].(matchValue := d.matchValue)
              && d.matchValue
                 == MatchMerge(tile.data[0].unorderedMatches, p.data[0].matchValue, indexStart, position,
                               info.maxMatchesPerColumn, place)
  {
    if p.kind != tile.kind then Threw(p, ProfileTypesDiffer)
    else if !Supported(p.kind) then Threw(p, Unimplemented)
    else
      var d := p.data[0];
      var t := tile.data[0];
      match p.kind
      case SumThresh =>
        Done(p.(data := p.data[0 := d.(doubleValue := ElementwiseSum(d.doubleValue, position, length, t.doubleValue))]))
      case OneNNIndex =>
        Done(p.(data := p.data[0 := d.(packedValue :=
          ElementwiseMaxPacked(d.packedValue, position, length, t.packedValue, indexStart))]))
      case OneNN =>
        Done(p.(data := p.data[0 := d.(floatValue := ElementwiseMax(d.floatValue, position, length, t.floatValue))]))
      case FrequencyThresh =>
        Done(p.(data := p.data[0 := d.(countValue :=
          ElementwiseSumCounts(d.countValue, position, length, t.countValue))]))
      case ApproxAllNeighbors =>
        if p.outputMatrix then
          var m := MatrixMerge(t.unorderedMatches, d.matrixValue, indexStart, position, p.reducedRows, p.reducedCols);
          var q := p.(data := p.data[0 := d.(matrixValue := m.State())]);
          if m.Done? then Done(q) else Threw(q, m.error)
        else
          Done(p.(data := p.data[0 := d.(matchValue :=
            MatchMerge(t.unorderedMatches, d.matchValue, indexStart, position, info.maxMatchesPerColumn, place))]))
      case _ => Threw(p, Unimplemented)
  }

  /** Merging the same tile into a 1NN or 1NN_INDEX profile twice leaves
      the profile as merging it once: a repeated tile report is harmless. */
  lemma MergeTileIdempotent(p: Profile, tile: Profile, info: Config.OpInfo, position: nat, length: nat,
                            indexStart: nat, place: (Queue, Match) -> nat)
    requires p.kind == tile.kind && (p.kind == OneNN || p.kind == OneNNIndex)
    requires MergeDefined(p, tile, info.maxMatchesPerColumn, position, length)
    ensures var once := MergeTileToProfile(p, tile, info, position, length, indexStart, place);
            && once.Done?
            && MergeDefined(once.value, tile, info.maxMatchesPerColumn, position, length)
            && MergeTileToProfile(once.value, tile, info, position, length, indexStart, place) == once
  {
    var once := MergeTileToProfile(p, tile, info, position, length, indexStart, place);
    var d := p.data[0];
    var t := tile.data[0];
    var q := once.value;
    var twice := MergeTileToProfile(q, tile, info, position, length, indexStart, place);
    if p.kind == OneNN {
      ElementwiseMaxIdempotent(d.floatValue, position, length, t.floatValue);
      assert twice.value.data[0] == q.data[0];
    } else {
      ElementwiseMaxPackedIdempotent(d.packedValue, position, length, t.packedValue, indexStart);
      assert twice.value.data[0] == q.data[0];
    }
    assert twice.value.data == q.data;
  }

  /** Two 1NN tiles merged into a profile give the same profile in either
      order: the merge workers may finish in any order. */
  lemma MergeTileCommutes(p: Profile, t1: Profile, t2: Profile, info: Config.OpInfo, position: nat, length: nat,
                          indexStart: nat, place: (Queue, Match) -> nat)
    requires p.kind == t1.kind == t2.kind == OneNN
    requires MergeDefined(p, t1, info.maxMatchesPerColumn, position, length)
    requires MergeDefined(p, t2, info.maxMatchesPerColumn, position, length)
    ensures var a := MergeTileToProfile(p, t1, info, position, length, indexStart, place);
            var b := MergeTileToProfile(p, t2, info, position, length, indexStart, place);
            && a.Done? && b.Done?
            && MergeDefined(a.value, t2, info.maxMatchesPerColumn, position, length)
            && MergeDefined(b.value, t1, info.maxMatchesPerColumn, position, length)
            && MergeTileToProfile(a.value, t2, info, position, length, indexStart, place)
               == MergeTileToProfile(b.value, t1, info, position, length, indexStart, place)
  {
    var f := p.data[0].floatValue;
    ElementwiseMaxCommutes(f, position, length, t1.data[0].floatValue, t2.data[0].floatValue);
    var a := MergeTileToProfile(p, t1, info, position, length, indexStart, place).value;
    var b := MergeTileToProfile(p, t2, info, position, length, indexStart, place).value;
    var ab := MergeTileToProfile(a, t2, info, position, length, indexStart, place).value;
    var ba := MergeTileToProfile(b, t1, info, position, length, indexStart, place).value;
    assert ab.data[0] == ba.data[0];
    assert ab.data == ba.data;
  }

  /** A tile merged into a freshly allocated 1NN or SUM_THRESH profile
      shows up verbatim in its window, provided (for 1NN) its correlations
      beat the allocation sentinel; the rest of the profile keeps the
      fill value. */
  lemma {:induction false} MergeIntoFreshProfile(p: Profile, size: nat, tile: Profile, info: Config.OpInfo, position: nat,
                                                 length: nat, indexStart: nat, place: (Queue, Match) -> nat)
    requires |p.data| == 0 && (p.kind == OneNN || p.kind == SumThresh) && tile.kind == p.kind
    requires position + length <= size && |tile.data| > 0
    requires p.kind == OneNN ==>
               length <= |tile.data[0].floatValue|
               && forall i :: 0 <= i < length ==> AllocSentinel < tile.data[0].floatValue[i]
    requires p.kind == SumThresh ==> length <= |tile.data[0].doubleValue|
    ensures var blank := Alloc(p, size);
            && MergeDefined(blank, tile, info.maxMatchesPerColumn, position, length)
            && var r := MergeTileToProfile(blank, tile, info, position, length, indexStart, place);
               && r.Done?
               && (p.kind == OneNN ==>
                     && (forall i :: 0 <= i < length ==>
                           r.value.data[0].floatValue[position + i] == tile.data[0].floatValue[i])
                     && (forall j :: 0 <= j < size && Outside(j, position, length) ==>
                           r.value.data[0].floatValue[j] == AllocSentinel))
               && (p.kind == SumThresh ==>
                     && (forall i :: 0 <= i < length ==>
                           r.value.data[0].doubleValue[position + i] == tile.data[0].doubleValue[i])
                     && (forall j :: 0 <= j < size && Outside(j, position, length) ==>
                           r.value.data[0].doubleValue[j] == 0.0))
  {
    var blank := Alloc(p, size);
    var r := MergeTileToProfile(blank, tile, info, position, length, indexStart, place);
    if p.kind == OneNN {
      forall i | 0 <= i < length
        ensures r.value.data[0].floatValue[position + i] == tile.data[0].floatValue[i]
      {
        assert blank.data[0].floatValue[position + i] == AllocSentinel;
      }
    } else {
      forall i | 0 <= i < length
        ensures r.value.data[0].doubleValue[position + i] == tile.data[0].doubleValue[i]
      {
        assert blank.data[0].doubleValue[position + i] == 0.0;
      }
    }
  }
}
