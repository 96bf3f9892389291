/**
 * The allocation calculator `calculateBlksize` of extension.js: from a
 * record length (LRECL), a record count and a record format (RECFM) it
 * derives the block size and the space a 3390 disk needs for the dataset.
 *
 * Every quantity is a floor or a ceiling of an integer ratio; the JavaScript
 * float products by 1.2, 0.8 and 0.2 are taken as the exact rationals 6/5,
 * 4/5 and 1/5.
 */
module Calculator {
  import opened Wrappers

  /** Largest block size the calculator hands out, the z/OS limit it works to. */
  const MaxBlksize: nat := 27966
  /** Bytes on one 3390 track. */
  const TrackCapacity: nat := 56664
  /** Bytes of inter-block overhead counted per block. */
  const BlockOverhead: nat := 12
  const TracksPerCylinder: nat := 15

  /** The result object of `calculateBlksize`, without its two display strings. */
  datatype Allocation = Allocation(
    optimalBlksize: nat,
    recordsPerBlock: nat,
    totalBlocks: nat,
    blocksPerTrack: nat,
    totalBytes: nat,
    tracksNeeded: nat,
    cylindersNeeded: nat,
    cylindersWithMargin: nat,
    primaryQty: nat,
    secondaryQty: nat)

  /**
   * The block holds no record, so the source's `recordCount / recordsPerBlock`
   * divides by zero and every count from `totalBlocks` on becomes Infinity.
   * The block size was still computed and is kept.
   */
  datatype CalcError = NoRecordFits(optimalBlksize: nat)

  /** The two formats the source compares against with `===`; any other string is variable. */
  function IsFixedBlocked(recfm: string): (b: bool)
    // the comparison is exact: "fb", "FBA" or "FB " take the variable branch
    ensures b <==> 2 <= |recfm| <= 3 && recfm[..2] == "FB" && (|recfm| == 3 ==> recfm[2] == 'S')
  {
    assert |recfm| == 2 ==> recfm == recfm[..2];
    assert |recfm| == 3 ==> recfm == recfm[..2] + [recfm[2]];
    recfm == "FB" || recfm == "FBS"
  }

  /** `q` units of `b` hold `a`, and `q - 1` units would not: `q` is the ceiling of `a / b`. */
  predicate IsCeilOf(q: nat, a: nat, b: nat) {
    q * b >= a > (q - 1) * b
  }

  /** `q` units of `b` fit in `a`, and `q + 1` units would not: `q` is the floor of `a / b`. */
  predicate IsFloorOf(q: nat, a: nat, b: nat) {
    q * b <= a < q * b + b
  }

  /** `Math.ceil(a / b)` on non-negative integers. */
  function CeilDiv(a: nat, b: nat): (q: nat)
    requires b > 0
    ensures IsCeilOf(q, a, b)
  {
    var q := (a + b - 1) / b;
    assert q * b + (a + b - 1) % b == a + b - 1;
    assert (q - 1) * b == q * b - b;
    q
  }

  /** `Math.floor(a / b)` on non-negative integers. */
  function FloorDiv(a: nat, b: nat): (q: nat)
    requires b > 0
    ensures IsFloorOf(q, a, b)
  {
    var q := a / b;
    assert q * b + a % b == a;
    q
  }

  /**
   * The block size: for FB/FBS the whole records that fit in 27966 bytes,
   * otherwise the record plus its 4-byte descriptor, capped at 27966.
   */
  function BlockSize(recordLength: nat, recfm: string): (b: nat)
    requires recordLength >= 1
    ensures b <= MaxBlksize
    ensures IsFixedBlocked(recfm) ==>
      b % recordLength == 0 && MaxBlksize < b + recordLength
    ensures !IsFixedBlocked(recfm) ==>
      b <= recordLength + 4 && (b == recordLength + 4 || b == MaxBlksize)
  {
    if IsFixedBlocked(recfm) then
      var recsPerBlock := FloorDiv(MaxBlksize, recordLength);
      assert (recsPerBlock * recordLength) % recordLength == 0 by {
        MultipleMod(recsPerBlock, recordLength);
      }
      recsPerBlock * recordLength
    else if recordLength + 4 <= MaxBlksize then recordLength + 4
    else MaxBlksize
  }

  lemma MultipleMod(k: nat, n: nat)
    requires n >= 1
    ensures (k * n) % n == 0
    ensures (k * n) / n == k
  {
    var q := FloorDiv(k * n, n);
    FloorUnique(k * n, n, q, k);
    assert (k * n) / n == q;
  }

  /** A floor quotient is determined by its bracketing inequalities. */
  lemma FloorUnique(a: nat, n: nat, q: nat, k: nat)
    requires n >= 1
    requires q * n <= a < q * n + n
    requires k * n <= a < k * n + n
    ensures q == k
  {
    assert q * n < (k + 1) * n;
    MulLtCancel(q, k + 1, n);
    assert k * n < (q + 1) * n;
    MulLtCancel(k, q + 1, n);
  }

  lemma MulMono(x: nat, y: nat, n: nat)
    ensures x <= y ==> x * n <= y * n
  {
  }

  lemma MulLtCancel(x: nat, y: nat, n: nat)
    requires x * n < y * n
    ensures x < y
  {
    MulMono(y, x, n);
  }

  /** 56664 / (b + 12) is at least 2 whenever b is a legal block size. */
  lemma TwoBlocksPerTrack(b: nat)
    requires b <= MaxBlksize
    ensures FloorDiv(TrackCapacity, b + BlockOverhead) >= 2
  {
  }

  /** A block holds no whole record exactly when the record is longer than 27966 bytes. */
  lemma NoRecordFitsWhenTooLong(recordLength: nat, recfm: string)
    requires recordLength >= 1
    ensures FloorDiv(BlockSize(recordLength, recfm), recordLength) == 0 <==> recordLength > MaxBlksize
  {
    var b := BlockSize(recordLength, recfm);
    var q := FloorDiv(b, recordLength);
    if recordLength <= MaxBlksize {
      assert recordLength <= b;
      MulLtCancel(0, q + 1, recordLength);
      assert q * recordLength <= b < q * recordLength + recordLength;
      MulMono(1, q, recordLength);
    } else {
      assert b < recordLength;
    }
  }

  /**
   * `calculateBlksize(recordLength, recordCount, recfm)`. Callers are
   * modelled as passing a positive record length (see README, Left out); a
   * detected LRECL of 0 is treated as missing.
   */
  function Calculate(recordLength: nat, recordCount: nat, recfm: string): (r: Result<Allocation, CalcError>)
    requires recordLength >= 1
    // the only failure: no record fits in a block, i.e. LRECL above 27966, in either branch
    ensures r.Failure? <==> recordLength > MaxBlksize
    ensures r.Failure? ==> r.error.optimalBlksize == BlockSize(recordLength, recfm)
    ensures r.Success? ==> Sized(recordLength, recordCount, recfm, r.value)
  {
    var optimalBlksize := BlockSize(recordLength, recfm);
    var blocksPerTrack := FloorDiv(TrackCapacity, optimalBlksize + BlockOverhead);
    var recordsPerBlock := FloorDiv(optimalBlksize, recordLength);
    NoRecordFitsWhenTooLong(recordLength, recfm);
    if recordsPerBlock == 0 then
      Failure(NoRecordFits(optimalBlksize))
    else
      TwoBlocksPerTrack(optimalBlksize);
      Success(Derive(recordLength, recordCount, optimalBlksize, recordsPerBlock, blocksPerTrack))
  }

  /** The block size of a calculation, which both outcomes carry. */
  function OptimalBlksize(r: Result<Allocation, CalcError>): nat {
    match r
    case Success(a) => a.optimalBlksize
    case Failure(e) => e.optimalBlksize
  }

  /** The counts that follow from the block geometry (lines 222-233). */
  function Derive(recordLength: nat, recordCount: nat, optimalBlksize: nat, recordsPerBlock: nat, blocksPerTrack: nat): (a: Allocation)
    requires recordsPerBlock >= 1 && blocksPerTrack >= 1
    ensures a.optimalBlksize == optimalBlksize
    ensures a.recordsPerBlock == recordsPerBlock && a.blocksPerTrack == blocksPerTrack
    ensures CountsCover(recordLength, recordCount, a)
    ensures SpaceSplit(a.cylindersNeeded, a.cylindersWithMargin, a.primaryQty, a.secondaryQty)
  {
    var totalBlocks := CeilDiv(recordCount, recordsPerBlock);
    var tracksNeeded := CeilDiv(totalBlocks, blocksPerTrack);
    var cylindersNeeded := CeilDiv(tracksNeeded, TracksPerCylinder);
    var space := SpaceFor(cylindersNeeded);
    Allocation(optimalBlksize, recordsPerBlock, totalBlocks, blocksPerTrack, recordCount * recordLength,
               tracksNeeded, cylindersNeeded, space.0, space.1, space.2)
  }

  /** Cylinders with the 20% margin, and the 80/20 primary/secondary split (lines 230-233). */
  function SpaceFor(cylindersNeeded: nat): (q: (nat, nat, nat))
    ensures SpaceSplit(cylindersNeeded, q.0, q.1, q.2)
  {
    (CeilDiv(6 * cylindersNeeded, 5), Max1(CeilDiv(4 * cylindersNeeded, 5)), Max1(CeilDiv(cylindersNeeded, 5)))
  }

  /** `Math.max(1, n)`. */
  function Max1(n: nat): (m: nat)
    ensures m >= 1 && m >= n
    ensures m == n || m == 1
  {
    if n < 1 then 1 else n
  }

  /** Each count is the ceiling of its ratio: enough units, and one unit fewer would not be. */
  ghost predicate CountsCover(recordLength: nat, recordCount: nat, a: Allocation) {
    && IsCeilOf(a.totalBlocks, recordCount, a.recordsPerBlock)
    && a.totalBytes == recordCount * recordLength
    && IsCeilOf(a.tracksNeeded, a.totalBlocks, a.blocksPerTrack)
    && IsCeilOf(a.cylindersNeeded, a.tracksNeeded, TracksPerCylinder)
  }

  /**
   * The margin is the ceiling of 6/5 of the need; primary and secondary are
   * the ceilings of 4/5 and 1/5 of it, raised to at least one cylinder.
   */
  ghost predicate SpaceSplit(cylindersNeeded: nat, withMargin: nat, primary: nat, secondary: nat) {
    && IsCeilOf(withMargin, 6 * cylindersNeeded, 5)
    && primary >= 1 && (primary == 1 || IsCeilOf(primary, 4 * cylindersNeeded, 5))
    && 5 * primary >= 4 * cylindersNeeded
    && secondary >= 1 && (secondary == 1 || IsCeilOf(secondary, cylindersNeeded, 5))
    && 5 * secondary >= cylindersNeeded
  }

  /** What the source promises of a successful calculation. */
  ghost predicate Sized(recordLength: nat, recordCount: nat, recfm: string, a: Allocation)
    requires recordLength >= 1
  {
    && a.optimalBlksize == BlockSize(recordLength, recfm)
    // records per block: the whole records in one block, at least one
    && a.recordsPerBlock >= 1
    && IsFloorOf(a.recordsPerBlock, a.optimalBlksize, recordLength)
    // blocks per track: whole blocks with their overhead on one track, at least two
    && a.blocksPerTrack >= 2
    && IsFloorOf(a.blocksPerTrack, TrackCapacity, a.optimalBlksize + BlockOverhead)
    && CountsCover(recordLength, recordCount, a)
    && SpaceSplit(a.cylindersNeeded, a.cylindersWithMargin, a.primaryQty, a.secondaryQty)
  }

  /** The margin never shrinks the allocation and the split always covers what is needed. */
  lemma SpaceCoversNeed(recordLength: nat, recordCount: nat, recfm: string)
    requires recordLength >= 1
    ensures var r := Calculate(recordLength, recordCount, recfm);
      r.Success? ==>
        && r.value.cylindersWithMargin >= r.value.cylindersNeeded
        && r.value.primaryQty + r.value.secondaryQty >= r.value.cylindersNeeded
        && r.value.primaryQty + r.value.secondaryQty <= r.value.cylindersNeeded + 2
  {
  }

  /**
   * For FB/FBS the generic `recordsPerBlock` (line 221) is the same number as
   * the branch's `recsPerBlock` (line 209); for other formats it is 1 once
   * the record is at least 5 bytes.
   */
  lemma RecordsPerBlockAgrees(recordLength: nat, recordCount: nat, recfm: string)
    requires 1 <= recordLength <= MaxBlksize
    ensures var r := Calculate(recordLength, recordCount, recfm);
      && r.Success?
      && (IsFixedBlocked(recfm) ==> r.value.recordsPerBlock == MaxBlksize / recordLength)
      && (!IsFixedBlocked(recfm) && recordLength >= 5 ==> r.value.recordsPerBlock == 1)
  {
    var a := Calculate(recordLength, recordCount, recfm).value;
    RecordsPerBlockOf(recordLength, recfm, a.optimalBlksize, a.recordsPerBlock);
  }

  lemma RecordsPerBlockOf(recordLength: nat, recfm: string, b: nat, k: nat)
    requires 1 <= recordLength
    requires b == BlockSize(recordLength, recfm)
    requires k * recordLength <= b < k * recordLength + recordLength
    ensures IsFixedBlocked(recfm) ==> k == MaxBlksize / recordLength
    ensures !IsFixedBlocked(recfm) && 5 <= recordLength <= MaxBlksize ==> k == 1
  {
    if IsFixedBlocked(recfm) {
      var q := FloorDiv(MaxBlksize, recordLength);
      assert b == q * recordLength;
      FloorUnique(b, recordLength, k, q);
    } else if 5 <= recordLength <= MaxBlksize {
      assert b < 2 * recordLength;
      FloorUnique(b, recordLength, k, 1);
    }
  }

  /** The worked example: 10000 records of 80 bytes, fixed blocked. */
  lemma Example80x10000FB()
    ensures Calculate(80, 10000, "FB")
      == Success(Allocation(27920, 349, 29, 2, 800000, 15, 1, 2, 1, 1))
  {
    assert IsFixedBlocked("FB");
    assert BlockSize(80, "FB") == 27920;
    assert FloorDiv(TrackCapacity, 27920 + BlockOverhead) == 2;
    assert FloorDiv(27920, 80) == 349;
    assert Derive(80, 10000, 27920, 349, 2) == Allocation(27920, 349, 29, 2, 800000, 15, 1, 2, 1, 1);
  }

  /** A 133-byte variable record gets a 137-byte block. */
  lemma Example133VB()
    ensures Calculate(133, 1, "VB").Success?
    ensures Calculate(133, 1, "VB").value.optimalBlksize == 137
  {
  }
}
