/** The arguments a correlation kernel receives for one tile
    (SCAMPKernelInputArgs, src/kernel_common.h). The tile is a record of
    opaque handles: the model follows which buffer ends up in which slot,
    never what the buffers hold. */
module KernelArgs {
  import opened ScampTypes
  import Config

  /** An opaque device buffer (a raw device address in the source). */
  datatype Buffer = Buffer(id: nat)

  /** An exclusion zone: its lower and upper diagonal bounds. */
  datatype Exclusion = Exclusion(lower: int, upper: int)

  /** What the constructor reads of a tile. The two exclusion getters take
      the tile's orientation flag; tile.h, which computes them, is not part
      of this model. */
  datatype Tile = Tile(
    qt: Buffer,
    dfA: Buffer, dfB: Buffer,
    dgA: Buffer, dgB: Buffer,
    normsA: Buffer, normsB: Buffer,
    height: int, width: int,
    info: Config.OpInfo,
    abJoinExclusion: bool -> Exclusion,
    selfJoinExclusion: bool -> Exclusion,
    aDevLength: Buffer, bDevLength: Buffer)

  /** The kernel's view of a tile. */
  datatype InputArgs = InputArgs(
    cov: Buffer,
    dfa: Buffer, dfb: Buffer,
    dga: Buffer, dgb: Buffer,
    normsa: Buffer, normsb: Buffer,
    profileALength: Buffer, profileBLength: Buffer,
    maxMatchesPerTile: int,
    nx: int, ny: int,
    exclusionLower: int, exclusionUpper: int,
    opt: Config.OptionalArgs)

  /** The SCAMPKernelInputArgs constructor. `transpose` swaps every a/b
      pair, the two dimensions and the two profile lengths. The dimension
      goes through a 32-bit field before the window is taken off, and the
      result is stored back into it. The exclusion zone comes from the
      ab-join getter for an ab-join and from the self-join getter otherwise,
      asked with the opposite of `transpose`. */
  function NewInputArgs(t: Tile, transpose: bool, abJoin: bool): (r: InputArgs)
    ensures r.cov == t.qt && r.opt == t.info.optArgs && r.maxMatchesPerTile == t.info.maxMatchesPerTile
    ensures !transpose ==> && r.dfa == t.dfA && r.dfb == t.dfB && r.dga == t.dgA && r.dgb == t.dgB
                           && r.normsa == t.normsA && r.normsb == t.normsB
                           && r.profileALength == t.aDevLength && r.profileBLength == t.bDevLength
    ensures transpose ==> && r.dfa == t.dfB && r.dfb == t.dfA && r.dga == t.dgB && r.dgb == t.dgA
                          && r.normsa == t.normsB && r.normsb == t.normsA
                          && r.profileALength == t.bDevLength && r.profileBLength == t.aDevLength
    ensures r.nx == WrapInt32((if transpose then t.height else t.width) - t.info.window + 1)
    ensures r.ny == WrapInt32((if transpose then t.width else t.height) - t.info.window + 1)
    ensures var e := if abJoin then t.abJoinExclusion(!transpose) else t.selfJoinExclusion(!transpose);
            r.exclusionLower == e.lower && r.exclusionUpper == e.upper
  {
    var nx0 := WrapInt32(if transpose then t.height else t.width);
    var ny0 := WrapInt32(if transpose then t.width else t.height);
    WrapInt32Shift(if transpose then t.height else t.width, 1 - t.info.window);
    WrapInt32Shift(if transpose then t.width else t.height, 1 - t.info.window);
    var exclusion := if abJoin then t.abJoinExclusion(!transpose) else t.selfJoinExclusion(!transpose);
    InputArgs(
      t.qt,
      if transpose then t.dfB else t.dfA,
      if transpose then t.dfA else t.dfB,
      if transpose then t.dgB else t.dgA,
      if transpose then t.dgA else t.dgB,
      if transpose then t.normsB else t.normsA,
      if transpose then t.normsA else t.normsB,
      if transpose then t.bDevLength else t.aDevLength,
      if transpose then t.aDevLength else t.bDevLength,
      t.info.maxMatchesPerTile,
      WrapInt32(nx0 - t.info.window + 1),
      WrapInt32(ny0 - t.info.window + 1),
      exclusion.lower, exclusion.upper,
      t.info.optArgs)
  }

  /** The tile seen the other way round: the a/b pairs, the dimensions and
      the profile lengths swapped, and each exclusion getter asked with the
      opposite flag. */
  function Transposed(t: Tile): Tile {
    t.(dfA := t.dfB, dfB := t.dfA, dgA := t.dgB, dgB := t.dgA,
       normsA := t.normsB, normsB := t.normsA,
       height := t.width, width := t.height,
       abJoinExclusion := b => t.abJoinExclusion(!b),
       selfJoinExclusion := b => t.selfJoinExclusion(!b),
       aDevLength := t.bDevLength, bDevLength := t.aDevLength)
  }

  /** Building the arguments transposed is building them from the
      transposed tile, untransposed. */
  lemma TransposeIsSwap(t: Tile, abJoin: bool)
    ensures NewInputArgs(t, true, abJoin) == NewInputArgs(Transposed(t), false, abJoin)
  {
  }

  /** Transposing the arguments swaps exactly the a and b operands: what
      one orientation puts in an a slot the other puts in the b slot. */
  lemma TransposeSwapsOperands(t: Tile, abJoin: bool)
    ensures var n := NewInputArgs(t, false, abJoin);
            var r := NewInputArgs(t, true, abJoin);
            && r.dfa == n.dfb && r.dfb == n.dfa && r.dga == n.dgb && r.dgb == n.dga
            && r.normsa == n.normsb && r.normsb == n.normsa
            && r.profileALength == n.profileBLength && r.profileBLength == n.profileALength
            && r.nx == n.ny && r.ny == n.nx
            && r.cov == n.cov && r.opt == n.opt && r.maxMatchesPerTile == n.maxMatchesPerTile
  {
  }
}
