/** The piecewise manager of src/PiecewiseSCAMP.cpp: segments wait in a FIFO
    queue; each one, once processed, is cross-joined against every segment
    accepted before it (in ascending order) and then self-joined, and its
    profile is kept index-aligned with the accepted segments.

    The join itself (do_SCAMP) is a function parameter: the model knows of
    it only that it hands back profiles of the lengths it was given. */
module Piecewise {
  import opened ScampTypes
  import Decimal
  import ScampUtils

  /** The settings every join of the manager starts from (the op template),
      reduced to the fields the modelled operations read. */
  datatype JoinSettings = JoinSettings(
    window: nat,
    maxTileSize: nat,
    hasB: bool,
    distributedStartRow: int,
    distributedStartCol: int,
    computingColumns: bool,
    computingRows: bool,
    profileType: ProfileType,
    precision: PrecisionType,
    keepRowsSeparate: bool,
    isAligned: bool)

  /** One call of the join: series A with its profile, and, for a join of
      two series, series B with its profile. A self-join carries no series
      B and no B profile, both left empty. */
  datatype JoinRequest = JoinRequest(
    settings: JoinSettings,
    seriesA: seq<real>,
    seriesB: seq<real>,
    profileA: seq<Entry>,
    profileB: seq<Entry>)

  /** The profiles a join hands back. */
  datatype JoinResult = JoinResult(profileA: seq<Entry>, profileB: seq<Entry>)

  /** The one property of the join the manager relies on: it keeps the
      profiles it is given, at the lengths it is given them. */
  ghost predicate PreservesLengths(join: JoinRequest -> JoinResult) {
    forall q :: |join(q).profileA| == |q.profileA| && |join(q).profileB| == |q.profileB|
  }

  /** The manager: accepted segments in arrival order, one profile per
      accepted segment, and the segments still waiting (front first). */
  datatype Manager = Manager(
    settings: JoinSettings,
    accepted: seq<seq<real>>,
    profiles: seq<seq<Entry>>,
    pending: seq<seq<real>>)

  /** Every accepted segment has its profile, of one entry per window. */
  predicate Aligned(m: Manager) {
    && |m.profiles| == |m.accepted|
    && forall k :: 0 <= k < |m.accepted| ==> |m.profiles[k]| == |m.accepted[k]| - m.settings.window + 1
  }

  /** The PiecewiseMP constructor: the op template of a join of two series
      with tiles of 2^20, rows and columns both computed and kept apart,
      no distributed offsets, and the window, precision and profile type
      given. Nothing is accepted or pending yet. */
  function NewManager(window: nat, precision: PrecisionType, profileType: ProfileType): (r: Manager)
    ensures r.accepted == [] && r.profiles == [] && r.pending == []
    ensures Aligned(r)
    ensures r.settings.window == window && r.settings.maxTileSize == 0x10_0000
    ensures r.settings.hasB && r.settings.keepRowsSeparate && !r.settings.isAligned
    ensures r.settings.computingRows && r.settings.computingColumns
    ensures r.settings.distributedStartRow == -1 && r.settings.distributedStartCol == -1
    ensures r.settings.profileType == profileType && r.settings.precision == precision
  {
    Manager(JoinSettings(window, 0x10_0000, true, -1, -1, true, true, profileType, precision, true, false),
            [], [], [])
  }

  /** The fill of a new profile: the lowest float and index -1. */
  const SegmentSentinel := Entry(LowestFloat, -1)

  /** get_new_mp_segment: `len` sentinel entries. */
  function NewSegment(len: nat): (r: seq<Entry>)
    ensures |r| == len
    ensures forall k :: 0 <= k < len ==> r[k] == SegmentSentinel
  {
    seq(len, _ => SegmentSentinel)
  }

  /** add_data: the segment joins the back of the queue, whatever its
      length; nothing accepted changes. */
  function AddData(m: Manager, segment: seq<real>): (r: Manager)
    ensures r.pending == m.pending + [segment]
    ensures r.pending[..|m.pending|] == m.pending && r.pending[|m.pending|] == segment
    ensures r.accepted == m.accepted && r.profiles == m.profiles && r.settings == m.settings
  {
    m.(pending := m.pending + [segment])
  }

  /** The cross-join of the new segment (series A, with its running
      profile) against accepted segment `other` (series B, with its
      profile): the template settings, unchanged. */
  function CrossRequest(settings: JoinSettings, series: seq<real>, other: seq<real>,
                        own: seq<Entry>, otherProfile: seq<Entry>): JoinRequest {
    JoinRequest(settings, series, other, own, otherProfile)
  }

  /** The self-join of the new segment: no series B, rows not kept apart. */
  function SelfRequest(settings: JoinSettings, series: seq<real>, own: seq<Entry>): JoinRequest {
    JoinRequest(settings.(hasB := false, keepRowsSeparate := false), series, [], own, [])
  }

  /** The new segment's running profile and the profiles of the accepted
      segments, part-way through the cross-join loop. */
  datatype Sweep = Sweep(own: seq<Entry>, others: seq<seq<Entry>>)

  /** The first `n` iterations of the cross-join loop: iteration `i` joins
      the new segment against accepted segment `i`, passes the new
      segment's profile on to the next iteration and stores the other
      profile back at `i`. */
  function CrossJoins(join: JoinRequest -> JoinResult, settings: JoinSettings, series: seq<real>,
                      own: seq<Entry>, accepted: seq<seq<real>>, others: seq<seq<Entry>>, n: nat): (r: Sweep)
    requires PreservesLengths(join)
    requires |others| == |accepted| && n <= |accepted|
    ensures |r.own| == |own| && |r.others| == |others|
    ensures forall k :: 0 <= k < |others| ==> |r.others[k]| == |others[k]|
    decreases n
  {
    if n == 0 then Sweep(own, others)
    else
      var before := CrossJoins(join, settings, series, own, accepted, others, n - 1);
      var result := join(CrossRequest(settings, series, accepted[n - 1], before.own, before.others[n - 1]));
      Sweep(result.profileA, before.others[n - 1 := result.profileB])
  }

  /** What iteration `k` of the cross-join loop stores back for accepted
      segment `k`, given that segment's profile from before the loop. */
  function Visit(join: JoinRequest -> JoinResult, settings: JoinSettings, series: seq<real>,
                 own: seq<Entry>, accepted: seq<seq<real>>, others: seq<seq<Entry>>, k: nat): seq<Entry>
    requires PreservesLengths(join)
    requires |others| == |accepted| && k < |accepted|
  {
    var before := CrossJoins(join, settings, series, own, accepted, others, k);
    join(CrossRequest(settings, series, accepted[k], before.own, others[k])).profileB
  }

  /** Iteration `k` of the cross-join loop sees accepted segment `k`'s
      profile as it was before the loop, and the loop replaces that profile
      by what iteration `k` hands back and leaves the profiles it has not
      reached alone. */
  lemma {:induction false} CrossJoinsVisitOnce(join: JoinRequest -> JoinResult, settings: JoinSettings,
                                               series: seq<real>, own: seq<Entry>, accepted: seq<seq<real>>,
                                               others: seq<seq<Entry>>, n: nat)
    requires PreservesLengths(join)
    requires |others| == |accepted| && n <= |accepted|
    ensures var r := CrossJoins(join, settings, series, own, accepted, others, n);
            && (forall k :: n <= k < |others| ==> r.others[k] == others[k])
            && (forall k :: 0 <= k < n ==> r.others[k] == Visit(join, settings, series, own, accepted, others, k))
    decreases n
  {
    if n > 0 {
      var i := n - 1;
      var before := CrossJoins(join, settings, series, own, accepted, others, i);
      var result := join(CrossRequest(settings, series, accepted[i], before.own, before.others[i]));
      var r := CrossJoins(join, settings, series, own, accepted, others, n);
      assert r.others == before.others[i := result.profileB];
      CrossJoinsVisitOnce(join, settings, series, own, accepted, others, i);
      assert before.others[i] == others[i];
      assert r.others[i] == Visit(join, settings, series, own, accepted, others, i);
    }
  }

  /** With nothing accepted yet the cross-join loop does not run, and the
      new segment keeps its sentinel profile. */
  lemma CrossJoinsNone(join: JoinRequest -> JoinResult, settings: JoinSettings, series: seq<real>, len: nat)
    requires PreservesLengths(join)
    ensures CrossJoins(join, settings, series, NewSegment(len), [], [], 0) == Sweep(NewSegment(len), [])
  {
  }

  /** The profile length of a segment, handed to get_new_mp_segment as an
      unsigned 64-bit length. With `window` a 64-bit or a signed 32-bit
      field, a negative length arrives as 2^64 minus a small number, beyond
      what a vector can hold, and the vector constructor throws
      std::length_error. */
  function SegmentLength(m: Manager, series: seq<real>): int {
    |series| - m.settings.window + 1
  }

  /** One iteration of update_mp. The front segment leaves the queue. A
      segment shorter than one window less one throws before anything else
      changes. Otherwise its profile starts as sentinels, goes through the
      cross-joins against every accepted segment, is stored, and is then
      replaced by the self-join's result; the segment is accepted last. */
  function ProcessFront(join: JoinRequest -> JoinResult, m: Manager): (r: Step<Manager>)
    requires PreservesLengths(join)
    requires Aligned(m) && |m.pending| > 0
    ensures r.State().pending == m.pending[1..] && r.State().settings == m.settings
    ensures r.Threw? <==> SegmentLength(m, m.pending[0]) < 0
    ensures r.Threw? ==> r.error == LengthError && r.partial.accepted == m.accepted && r.partial.profiles == m.profiles
    ensures r.Done? ==> r.value.accepted == m.accepted + [m.pending[0]]
    ensures Aligned(r.State())
  {
    var series := m.pending[0];
    var len := SegmentLength(m, series);
    if len < 0 then Threw(m.(pending := m.pending[1..]), LengthError)
    else
      var sweep := CrossJoins(join, m.settings, series, NewSegment(len), m.accepted, m.profiles, |m.accepted|);
      var selfJoined := join(SelfRequest(m.settings, series, sweep.own)).profileA;
      Done(Manager(m.settings, m.accepted + [series], sweep.others + [selfJoined], m.pending[1..]))
  }

  /** What ProcessFront stores: accepted segment `k`'s profile becomes
      what the `k`-th cross-join hands back for it, a join that sees that
      profile as it was before the step and the new segment's profile as
      the earlier cross-joins left it; the new profile is the self-join of
      the profile the last cross-join leaves. */
  lemma ProcessFrontProfiles(join: JoinRequest -> JoinResult, m: Manager)
    requires PreservesLengths(join)
    requires Aligned(m) && |m.pending| > 0 && SegmentLength(m, m.pending[0]) >= 0
    ensures var series := m.pending[0];
            var initial := NewSegment(SegmentLength(m, series));
            var sweep := CrossJoins(join, m.settings, series, initial, m.accepted, m.profiles, |m.accepted|);
            var r := ProcessFront(join, m).value;
            && |r.profiles| == |m.accepted| + 1
            && r.profiles[..|m.accepted|] == sweep.others
            && (forall k :: 0 <= k < |m.accepted| ==>
                  r.profiles[k] == Visit(join, m.settings, series, initial, m.accepted, m.profiles, k))
            && r.profiles[|m.accepted|] == join(SelfRequest(m.settings, series, sweep.own)).profileA
  {
    var series := m.pending[0];
    var initial := NewSegment(SegmentLength(m, series));
    CrossJoinsVisitOnce(join, m.settings, series, initial, m.accepted, m.profiles, |m.accepted|);
    var r := ProcessFront(join, m).value;
    forall k | 0 <= k < |m.accepted|
      ensures r.profiles[k] == Visit(join, m.settings, series, initial, m.accepted, m.profiles, k)
    {
      assert r.profiles[k] == r.profiles[..|m.accepted|][k];
    }
  }

  /** update_mp: the queue is worked off front first until it is empty.
      A segment too short for one window throws; the segments before it
      have been processed and it has left the queue. */
  function UpdateMp(join: JoinRequest -> JoinResult, m: Manager): (r: Step<Manager>)
    requires PreservesLengths(join)
    requires Aligned(m)
    ensures Aligned(r.State()) && r.State().settings == m.settings
    ensures r.Done? ==> r.value.pending == []
    decreases |m.pending|
  {
    if |m.pending| == 0 then Done(m)
    else
      var step := ProcessFront(join, m);
      if step.Threw? then step else UpdateMp(join, step.value)
  }

  /** A segment the manager can process: at least one window less one. */
  predicate Processable(m: Manager, series: seq<real>) {
    SegmentLength(m, series) >= 0
  }

  /** update_mp stopped at pending segment `k`: it is the first segment
      that cannot be processed, the segments before it have been accepted
      in order, and it has left the queue with them. */
  predicate StopsAt(m: Manager, partial: Manager, k: int) {
    && 0 <= k < |m.pending|
    && !Processable(m, m.pending[k])
    && (forall l :: 0 <= l < k ==> Processable(m, m.pending[l]))
    && partial.accepted == m.accepted + m.pending[..k]
    && partial.pending == m.pending[k + 1..]
  }

  /** update_mp accepts the pending segments in arrival order. It finishes
      exactly when every pending segment is processable; otherwise it stops
      at the first one that is not, having accepted those before it and
      dropped that one from the queue. Earlier accepted segments stay as
      they were. */
  lemma {:induction false} UpdateMpFifo(join: JoinRequest -> JoinResult, m: Manager)
    requires PreservesLengths(join)
    requires Aligned(m)
    ensures var r := UpdateMp(join, m);
            && (r.Done? <==> forall k :: 0 <= k < |m.pending| ==> Processable(m, m.pending[k]))
            && (r.Done? ==> r.value.accepted == m.accepted + m.pending)
            && (r.Threw? ==> r.error == LengthError && exists k :: StopsAt(m, r.partial, k))
    decreases |m.pending|
  {
    if |m.pending| > 0 {
      var step := ProcessFront(join, m);
      if step.Done? {
        var next := step.value;
        UpdateMpFifo(join, next);
        FrontAccepted(m, next);
        var r := UpdateMp(join, next);
        if r.Threw? {
          var k :| StopsAt(next, r.partial, k);
          StopsAtShift(m, next, r.partial, k);
        }
      } else {
        assert m.pending[..0] == [];
        assert StopsAt(m, step.partial, 0);
      }
    }
  }

  /** Once the front segment is accepted, the remaining segments are the
      later ones with the same processability, and nothing is lost. */
  lemma FrontAccepted(m: Manager, next: Manager)
    requires |m.pending| > 0
    requires next.settings == m.settings && next.pending == m.pending[1..]
    requires next.accepted == m.accepted + [m.pending[0]]
    ensures forall k :: 0 <= k < |next.pending| ==>
              (Processable(next, next.pending[k]) <==> Processable(m, m.pending[k + 1]))
    ensures next.accepted + next.pending == m.accepted + m.pending
  {
    assert m.pending == [m.pending[0]] + next.pending;
    forall k | 0 <= k < |next.pending|
      ensures Processable(next, next.pending[k]) <==> Processable(m, m.pending[k + 1])
    {
      assert next.pending[k] == m.pending[k + 1];
    }
  }

  /** Stopping at segment `k` after the front segment was accepted is
      stopping at segment `k + 1` of the queue before it. */
  lemma StopsAtShift(m: Manager, next: Manager, partial: Manager, k: nat)
    requires |m.pending| > 0 && Processable(m, m.pending[0])
    requires next.settings == m.settings && next.pending == m.pending[1..]
    requires next.accepted == m.accepted + [m.pending[0]]
    requires StopsAt(next, partial, k)
    ensures StopsAt(m, partial, k + 1)
  {
    assert m.pending[..k + 1] == [m.pending[0]] + next.pending[..k];
    assert m.pending[k + 2..] == next.pending[k + 1..];
    forall l | 0 <= l < k + 1
      ensures Processable(m, m.pending[l])
    {
      if l > 0 {
        assert Processable(next, next.pending[l - 1]);
      }
    }
  }

  /** An update with nothing pending changes nothing, so update_mp run
      twice is update_mp run once. */
  lemma UpdateMpIdempotent(join: JoinRequest -> JoinResult, m: Manager)
    requires PreservesLengths(join)
    requires Aligned(m)
    ensures var r := UpdateMp(join, m);
            r.Done? ==> UpdateMp(join, r.value) == r
  {
  }

  /** The first segment processed is only self-joined: its profile is the
      self-join of a sentinel profile. */
  lemma FirstSegmentSelfJoinOnly(join: JoinRequest -> JoinResult, m: Manager)
    requires PreservesLengths(join)
    requires Aligned(m) && m.accepted == [] && |m.pending| > 0 && Processable(m, m.pending[0])
    ensures var series := m.pending[0];
            ProcessFront(join, m).value.profiles
              == [join(SelfRequest(m.settings, series, NewSegment(SegmentLength(m, series)))).profileA]
  {
    CrossJoinsNone(join, m.settings, m.pending[0], SegmentLength(m, m.pending[0]));
  }

  /** The two files of one profile: the correlation of every entry, and its
      stored index plus one. */
  datatype ProfileFiles = ProfileFiles(mpName: string, mpiName: string, values: seq<real>, indices: seq<int>)

  /** The file-local WriteProfileToFile: one value line (the raw
      correlation) and one index line per entry, whatever the entry. The
      index line is the index field plus one, taken in the field's 32 bits
      and printed as an unsigned number, the field being `unsigned int` as
      its `-1u` stores suggest. Subtracting one from an index line, again
      in 32 bits, gives back the stored index; in plain integers it does so
      for -1 (the sentinel, whose line is 0) and every non-negative index
      below 2^32 - 1. */
  function ProfileToFiles(mpName: string, mpiName: string, p: seq<Entry>): (r: ProfileFiles)
    ensures r.mpName == mpName && r.mpiName == mpiName
    ensures |r.values| == |p| && |r.indices| == |p|
    ensures forall j :: 0 <= j < |p| ==> r.values[j] == p[j].corr
    ensures forall j :: 0 <= j < |p| ==> 0 <= r.indices[j] < Two32
    ensures forall j :: 0 <= j < |p| ==> WrapInt32(r.indices[j] - 1) == WrapInt32(p[j].index)
    ensures forall j :: 0 <= j < |p| && -1 <= p[j].index < Two32 - 1 ==> r.indices[j] == p[j].index + 1
  {
    var indices := seq(|p|, j requires 0 <= j < |p| => AsUnsigned32(p[j].index + 1));
    forall j | 0 <= j < |p|
      ensures WrapInt32(indices[j] - 1) == WrapInt32(p[j].index)
    {
      WrapInt32Shift(indices[j], -1);
      WrapInt32Shift(p[j].index + 1, -1);
    }
    ProfileFiles(mpName, mpiName, seq(|p|, j requires 0 <= j < |p| => p[j].corr), indices)
  }

  function MpName(k: nat): string {
    "piecewise_mp/mp_" + Decimal.NatToString(k)
  }

  function MpiName(k: nat): string {
    "piecewise_mp/mpi_" + Decimal.NatToString(k)
  }

  /** write_mp: profile `k` goes to the files numbered `k`, in accepted
      order. */
  function WriteMp(m: Manager): (r: seq<ProfileFiles>)
    ensures |r| == |m.profiles|
    ensures forall k :: 0 <= k < |r| ==> r[k] == ProfileToFiles(MpName(k), MpiName(k), m.profiles[k])
  {
    seq(|m.profiles|, k requires 0 <= k < |m.profiles| => ProfileToFiles(MpName(k), MpiName(k), m.profiles[k]))
  }

  /** No two profiles share a file. */
  lemma WriteMpNamesDistinct(m: Manager, k: nat, l: nat)
    requires k < l < |m.profiles|
    ensures WriteMp(m)[k].mpName != WriteMp(m)[l].mpName
    ensures WriteMp(m)[k].mpiName != WriteMp(m)[l].mpiName
    ensures WriteMp(m)[k].mpName != WriteMp(m)[l].mpiName
  {
    assert Decimal.NatToString(k) != Decimal.NatToString(l) by {
      assert Decimal.DigitsValue(Decimal.NatToString(k)) != Decimal.DigitsValue(Decimal.NatToString(l));
    }
    assert MpName(k)[16..] == Decimal.NatToString(k) && MpName(l)[16..] == Decimal.NatToString(l);
    assert MpiName(k)[17..] == Decimal.NatToString(k) && MpiName(l)[17..] == Decimal.NatToString(l);
    assert MpName(k)[15] == '_' && MpiName(l)[15] == 'i';
  }

  /** A profile that no join has touched writes index 0 on every line,
      where the index file of src/scamp_utils.cpp writes -1 for the same
      sentinel entry. */
  lemma SentinelIndexIsZero(m: Manager, k: nat, j: nat)
    requires k < |m.profiles| && j < |m.profiles[k]| && m.profiles[k][j] == SegmentSentinel
    ensures WriteMp(m)[k].indices[j] == 0
    ensures ScampUtils.IndexRecord(m.profiles[k][j]) == -1
  {
  }
}
