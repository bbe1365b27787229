/** The 40-bit quota timers and the two record conversions (quotactl-rs/src/lib.rs). */
module QuotaTimer {

  type I8 = n: int | -0x80 <= n < 0x80
  type U8 = n: int | 0 <= n < 0x100
  type U16 = n: int | 0 <= n < 0x1_0000
  type I16 = n: int | -0x8000 <= n < 0x8000
  type I32 = n: int | -0x8000_0000 <= n < 0x8000_0000
  type U32 = n: int | 0 <= n < 0x1_0000_0000
  type U64 = n: int | 0 <= n < 0x1_0000_0000_0000_0000
  type I64 = n: int | -0x8000_0000_0000_0000 <= n < 0x8000_0000_0000_0000

  const TWO_32 := 0x1_0000_0000
  const TWO_40 := 0x100_0000_0000

  /** `as i32`: the low 32 bits as a signed number. */
  function AsI32(n: int): I32 {
    var r := n % TWO_32;
    if r >= 0x8000_0000 then r - TWO_32 else r
  }

  /** `as i8` */
  function AsI8(n: int): I8 {
    var r := n % 0x100;
    if r >= 0x80 then r - 0x100 else r
  }

  /** `low as u32` */
  function AsU32(n: I32): U32 {
    n % TWO_32
  }

  /** (high << 32) | low: the low word occupies the bits the shift cleared. */
  function CombineTimer(low: I32, high: I8): I64 {
    high * TWO_32 + AsU32(low)
  }

  /** timer >> 32 is an arithmetic shift, that is, floor division. */
  function SplitTimer(timer: I64): (I32, I8) {
    (AsI32(timer), AsI8(timer / TWO_32))
  }

  predicate IsI40(n: int) {
    -0x80_0000_0000 <= n < 0x80_0000_0000
  }

  /** n reduced modulo 2^40 into the signed range. */
  function SignExtend40(n: int): (r: int)
    ensures IsI40(r)
  {
    var r := n % TWO_40;
    if r >= 0x80_0000_0000 then r - TWO_40 else r
  }

  lemma CombineSplit(low: I32, high: I8)
    ensures SplitTimer(CombineTimer(low, high)) == (low, high)
    ensures IsI40(CombineTimer(low, high))
  {
    var t := CombineTimer(low, high);
    assert t / TWO_32 == high;
    assert t % TWO_32 == AsU32(low);
  }

  /** Splitting loses the bits above the 40th. */
  lemma SplitCombine(timer: I64)
    ensures CombineTimer(SplitTimer(timer).0, SplitTimer(timer).1) == SignExtend40(timer)
    ensures CombineTimer(SplitTimer(timer).0, SplitTimer(timer).1) == timer <==> IsI40(timer)
  {
    var high := timer / TWO_32;
    var low := timer % TWO_32;
    assert timer == high * TWO_32 + low;
    assert AsU32(AsI32(timer)) == low;
    var h := high % 0x100;
    assert high == (high / 0x100) * 0x100 + h;
    assert timer == (high / 0x100) * TWO_40 + (h * TWO_32 + low);
    assert 0 <= h * TWO_32 + low < TWO_40;
    assert timer % TWO_40 == h * TWO_32 + low;
  }

  /** FsDiskQuota */
  datatype Quota = Quota(
    version: I8, flags: U8, fieldmask: U16, id: U32,
    blkHard: U64, blkSoft: U64, inoHard: U64, inoSoft: U64, bcount: U64, icount: U64,
    itimer: I64, btimer: I64, iwarns: U16, bwarns: U16,
    rtbHard: U64, rtbSoft: U64, rtbcount: U64, rtbtimer: I64, rtbwarns: U16)

  /** fs_disk_quota, the kernel record; the three paddings are kept. */
  datatype KernelQuota = KernelQuota(
    version: I8, flags: U8, fieldmask: U16, id: U32,
    blkHard: U64, blkSoft: U64, inoHard: U64, inoSoft: U64, bcount: U64, icount: U64,
    itimer: I32, btimer: I32, iwarns: U16, bwarns: U16, itimerHi: I8, btimerHi: I8, rtbtimerHi: I8, padding2: I8,
    rtbHard: U64, rtbSoft: U64, rtbcount: U64, rtbtimer: I32, rtbwarns: U16, padding3: I16, padding4: seq<U8>)

  const ZERO_PADDING4: seq<U8> := [0, 0, 0, 0, 0, 0, 0, 0]

  function FromKernel(k: KernelQuota): Quota {
    Quota(k.version, k.flags, k.fieldmask, k.id, k.blkHard, k.blkSoft, k.inoHard, k.inoSoft, k.bcount, k.icount,
          CombineTimer(k.itimer, k.itimerHi), CombineTimer(k.btimer, k.btimerHi), k.iwarns, k.bwarns,
          k.rtbHard, k.rtbSoft, k.rtbcount, CombineTimer(k.rtbtimer, k.rtbtimerHi), k.rtbwarns)
  }

  function ToKernel(q: Quota): KernelQuota {
    var (itimer, itimerHi) := SplitTimer(q.itimer);
    var (btimer, btimerHi) := SplitTimer(q.btimer);
    var (rtbtimer, rtbtimerHi) := SplitTimer(q.rtbtimer);
    KernelQuota(q.version, q.flags, q.fieldmask, q.id, q.blkHard, q.blkSoft, q.inoHard, q.inoSoft, q.bcount, q.icount,
                itimer, btimer, q.iwarns, q.bwarns, itimerHi, btimerHi, rtbtimerHi, 0,
                q.rtbHard, q.rtbSoft, q.rtbcount, rtbtimer, q.rtbwarns, 0, ZERO_PADDING4)
  }

  /** The two parts of a timer hold its low 32 bits and the 8 bits above them. */
  predicate HoldsTimer(low: I32, high: I8, timer: I64) {
    (timer - low) % TWO_32 == 0 && (timer / TWO_32 - high) % 0x100 == 0
  }

  /** The two records agree, field by field. */
  predicate SameQuota(q: Quota, k: KernelQuota) {
    && q.version == k.version && q.flags == k.flags && q.fieldmask == k.fieldmask && q.id == k.id
    && q.blkHard == k.blkHard && q.blkSoft == k.blkSoft && q.inoHard == k.inoHard && q.inoSoft == k.inoSoft
    && q.bcount == k.bcount && q.icount == k.icount && q.iwarns == k.iwarns && q.bwarns == k.bwarns
    && q.rtbHard == k.rtbHard && q.rtbSoft == k.rtbSoft && q.rtbcount == k.rtbcount && q.rtbwarns == k.rtbwarns
    && HoldsTimer(k.itimer, k.itimerHi, q.itimer)
    && HoldsTimer(k.btimer, k.btimerHi, q.btimer)
    && HoldsTimer(k.rtbtimer, k.rtbtimerHi, q.rtbtimer)
  }

  lemma SplitHolds(timer: I64)
    ensures HoldsTimer(SplitTimer(timer).0, SplitTimer(timer).1, timer)
  {
    var q := timer / TWO_32;
    assert timer == q * TWO_32 + timer % TWO_32;
    assert q == q / 0x100 * 0x100 + q % 0x100;
  }

  lemma CombineHolds(low: I32, high: I8)
    ensures HoldsTimer(low, high, CombineTimer(low, high))
  {
    var t := CombineTimer(low, high);
    assert t / TWO_32 == high;
    assert low == low / TWO_32 * TWO_32 + AsU32(low);
  }

  /** Both conversions keep every field and put each timer into, and take it from, its own pair of fields. */
  lemma ConversionsAgree(q: Quota, k: KernelQuota)
    ensures SameQuota(q, ToKernel(q)) && SameQuota(FromKernel(k), k)
  {
    SplitHolds(q.itimer);
    SplitHolds(q.btimer);
    SplitHolds(q.rtbtimer);
    CombineHolds(k.itimer, k.itimerHi);
    CombineHolds(k.btimer, k.btimerHi);
    CombineHolds(k.rtbtimer, k.rtbtimerHi);
    hide HoldsTimer, SplitTimer, CombineTimer;
  }

  /** A record survives the trip to the kernel and back exactly when its three timers are 40-bit values. */
  lemma QuotaRoundTrip(q: Quota)
    ensures FromKernel(ToKernel(q)) == q <==> IsI40(q.itimer) && IsI40(q.btimer) && IsI40(q.rtbtimer)
  {
    SplitCombine(q.itimer);
    SplitCombine(q.btimer);
    SplitCombine(q.rtbtimer);
  }

  /** A kernel record survives up to its paddings, which are zeroed. */
  lemma KernelRoundTrip(k: KernelQuota)
    ensures ToKernel(FromKernel(k)) == k.(padding2 := 0, padding3 := 0, padding4 := ZERO_PADDING4)
  {
    CombineSplit(k.itimer, k.itimerHi);
    CombineSplit(k.btimer, k.btimerHi);
    CombineSplit(k.rtbtimer, k.rtbtimerHi);
  }
}
