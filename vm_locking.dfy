/**
  The optimistic fast path of the emulator's memory range lock (`vm::range_lock`).

  A single 64-bit global lock word describes the administrative lock currently
  in force: its address in bits 0..31, its kind in bits 32..34 and its size in
  bits 35..63. Every accessor thread owns a slot in which it publishes the range
  it is about to touch as `begin | size << 32`. The fast path reads the lock
  word, folds the target address when its 64 KB chunk is shareable, tests for
  overlap with a `range_locked` range, publishes its slot, re-reads the lock
  word and the thread's stall indicator, and either returns or withdraws the
  publication and falls back to the slow path.

  The two loads of the lock word and of the stall indicator are inputs here (an
  `Observation`); what the slow path does after the fall-back is not modelled.
  The bitwise operators are those of module Bits, on naturals.
*/
module VmLocking {
  import opened Wrappers
  import opened Bits

  const TwoTo16: nat := 0x1_0000
  const TwoTo32: nat := 0x1_0000_0000
  const TwoTo35: nat := 0x8_0000_0000

  // range_lock_flags: three flag bits, placed at bits 32..34 of the lock word.
  const RangeReadable: u64 := 0x1_0000_0000     // 1 << 32
  const RangeWritable: u64 := 0x2_0000_0000     // 2 << 32
  const RangeExecutable: u64 := 0x4_0000_0000   // 4 << 32
  const RangeMask: u64 := 0x7_0000_0000         // 7 << 32

  // Named kinds of administrative lock, as values of the same field.
  const RangeNormal: u64 := 0x3_0000_0000       // 3 << 32
  /** The kind the fast path tests addresses against; every other kind lets it through. */
  const RangeLocked: u64 := 0x2_0000_0000       // 2 << 32
  const RangeSharing: u64 := 0x4_0000_0000      // 4 << 32
  const RangeAllocation: u64 := 0
  const RangeDeallocation: u64 := 0x6_0000_0000 // 6 << 32

  /** The special kinds are combinations of the three flag bits, so they fit
      `range_mask`; `range_locked` is the writable bit alone. */
  lemma RangeFlagsConsistent()
    ensures RangeLocked == RangeWritable
    ensures RangeNormal == Or(RangeReadable, RangeWritable)
    ensures RangeDeallocation == Or(RangeWritable, RangeExecutable)
    ensures RangeSharing == RangeExecutable
    ensures RangeAllocation == 0
    ensures And(RangeNormal, RangeMask) == RangeNormal
    ensures And(RangeLocked, RangeMask) == RangeLocked
    ensures And(RangeSharing, RangeMask) == RangeSharing
    ensures And(RangeAllocation, RangeMask) == RangeAllocation
    ensures And(RangeDeallocation, RangeMask) == RangeDeallocation
  {
    OrKinds(1, 2);
    OrKinds(2, 4);
    assert Or(1, 2) == 3 && Or(2, 4) == 6;
    KindWithinMask(3);
    KindWithinMask(2);
    KindWithinMask(4);
    KindWithinMask(6);
  }

  /** A kind built from the three flag bits is left unchanged by `& range_mask`. */
  lemma KindWithinMask(k: nat)
    requires k < 8
    ensures And(k * TwoTo32, RangeMask) == k * TwoTo32
  {
    var w := k * TwoTo32;
    MaskKind(w);
    ScaledKind(k);
    assert (w / TwoTo32) % 8 == k;
  }

  /** `k << 32` for a 3-bit kind: a multiple of 2^32 whose high part is k. */
  lemma ScaledKind(k: nat)
    requires k < 8
    ensures (k * TwoTo32) % TwoTo32 == 0 && (k * TwoTo32) / TwoTo32 == k
  {
    DivModUnique(k * TwoTo32, TwoTo32, k, 0);
  }

  // The bit operators at the widths the lock word uses.

  lemma ShrBy16(v: nat)
    ensures Shr(v, 16) == v / TwoTo16
  {
    ShrIsDiv(v, 16);
    Pow2Is2To16();
  }

  lemma ShrBy35(v: nat)
    ensures Shr(v, 35) == v / TwoTo35
  {
    ShrIsDiv(v, 35);
    Pow2Is2To35();
  }

  lemma MaskLow16(v: nat)
    ensures And(v, 0xFFFF) == v % TwoTo16
  {
    AndLowBits(v, 16);
    Pow2Is2To16();
  }

  lemma MaskLow7(v: nat)
    ensures And(v, 127) == v % 128
  {
    AndLowBits(v, 7);
    Pow2Is128();
  }

  lemma MaskKind(v: nat)
    ensures And(v, RangeMask) == (v / TwoTo32) % 8 * TwoTo32
  {
    Pow2Is2To32();
    AndShifted(v, 7, 32);
    ShrIsDiv(v, 32);
    AndLowBits(v / TwoTo32, 3);
    Pow2Is8();
  }

  lemma OrKinds(a: nat, b: nat)
    ensures Or(a * TwoTo32, b * TwoTo32) == Or(a, b) * TwoTo32
  {
    OrShifted(a, b, 32);
    Pow2Is2To32();
  }

  lemma OrSlot(begin: u32, size: nat)
    ensures Or(begin, size * TwoTo32) == begin + size * TwoTo32
  {
    Pow2Is2To32();
    OrDisjoint(begin, size, 32);
  }

  /** `static_cast<u32>`: keeps the low 32 bits. */
  function Low32(v: nat): (r: u32)
    ensures v < TwoTo32 ==> r == v
    ensures (v - r) % TwoTo32 == 0
  {
    v % TwoTo32
  }

  // ---------------------------------------------------------------------------
  // The global lock word
  // ---------------------------------------------------------------------------

  /** `lock_val & range_mask`: the kind field, left in place at bit 32. */
  function KindBits(v: u64): (k: u64)
    ensures k == (v / TwoTo32) % 8 * TwoTo32
  {
    MaskKind(v);
    And(v, RangeMask)
  }

  /** The global lock word, decoded: address, size and kind bits (still at bit 32). */
  datatype LockState = LockState(addr: u32, size: u32, bits: u64)

  /** A decoded state fits the layout: 29 bits of size, a kind within `range_mask`. */
  predicate WellFormed(s: LockState)
  {
    s.size < 0x2000_0000 && s.bits % TwoTo32 == 0 && s.bits / TwoTo32 < 8
  }

  /** The word with these fields: address + kind + size * 2^35. */
  function Encode(s: LockState): (v: u64)
    requires WellFormed(s)
  {
    s.addr + s.bits + s.size * TwoTo35
  }

  /** Decoding is lossless: every word is the encoding of its decoded fields. */
  function Decode(v: u64): (s: LockState)
    ensures WellFormed(s)
    ensures Encode(s) == v
  {
    ShrBy35(v);
    SplitWord(v);
    ScaledKind((v / TwoTo32) % 8);
    LockState(Low32(v), Low32(Shr(v, 35)), KindBits(v))
  }

  /** Encoding then decoding gives back the address, size and kind. */
  lemma DecodeEncode(s: LockState)
    requires WellFormed(s)
    ensures Decode(Encode(s)) == s
  {
    var v := Encode(s);
    var d := Decode(v);
    EncodeInjective(d, s);
  }

  /** A word splits into its address, kind and size fields. */
  lemma SplitWord(v: u64)
    ensures v / TwoTo35 < 0x2000_0000
    ensures v == v % TwoTo32 + (v / TwoTo32) % 8 * TwoTo32 + (v / TwoTo35) * TwoTo35
  {
    var h, l := v / TwoTo32, v % TwoTo32;
    assert v == h * TwoTo32 + l;
    var q, c := h / 8, h % 8;
    assert h == q * 8 + c;
    assert v == TwoTo35 * q + (c * TwoTo32 + l);
    DivModUnique(v, TwoTo35, q, c * TwoTo32 + l);
  }

  /** Well-formed states with the same encoding are the same state. */
  lemma EncodeInjective(s: LockState, t: LockState)
    requires WellFormed(s) && WellFormed(t)
    requires Encode(s) == Encode(t)
    ensures s == t
  {
    var v := Encode(s);
    var cs, ct := s.bits / TwoTo32, t.bits / TwoTo32;
    assert s.bits == cs * TwoTo32 && t.bits == ct * TwoTo32;
    assert v == TwoTo32 * (cs + 8 * s.size) + s.addr;
    assert v == TwoTo32 * (ct + 8 * t.size) + t.addr;
    DivModUnique(v, TwoTo32, cs + 8 * s.size, s.addr);
    DivModUnique(v, TwoTo32, ct + 8 * t.size, t.addr);
    DivModUnique(v / TwoTo32, 8, s.size, cs);
    DivModUnique(v / TwoTo32, 8, t.size, ct);
  }

  /** The zero word (no administrative lock) decodes to an empty allocation
      range, which never blocks. */
  lemma IdleWordDecodes()
    ensures Decode(0) == LockState(0, 0, RangeAllocation)
  {
  }

  // ---------------------------------------------------------------------------
  // The per-thread slot
  // ---------------------------------------------------------------------------

  /** `begin | (u64{size} << 32)`: the value published for [begin, begin+size). */
  function SlotValue(begin: u32, size: u32): (v: u64)
    ensures v == begin + size * TwoTo32
    ensures Low32(v) == begin && v / TwoTo32 == size
  {
    OrSlot(begin, size);
    DivModUnique(begin + size * TwoTo32, TwoTo32, size, begin);
    Or(begin, size * TwoTo32)
  }

  /** Every slot value is the publication of exactly one range. */
  lemma SlotValueOnto(v: u64)
    ensures v / TwoTo32 < TwoTo32
    ensures SlotValue(Low32(v), v / TwoTo32) == v
  {
  }

  /** An accessor's slot: its current value and, as a ghost, every value stored into it. */
  class RangeLockSlot {
    var value: u64
    ghost var stores: seq<u64>

    /** An atomic store (`store` or `release`; the memory ordering is not modelled). */
    method Store(v: u64)
      modifies this
      ensures value == v
      ensures stores == old(stores) + [v]
    {
      value := v;
      stores := stores + [v];
    }
  }

  // ---------------------------------------------------------------------------
  // Shareable chunks
  // ---------------------------------------------------------------------------

  /** The shareable table, indexed by 64 KB chunk; a chunk with no entry reads as 0. */
  type ShareableTable = map<nat, u8>

  function ShareableAt(table: ShareableTable, chunk: nat): u8
  {
    if chunk in table then table[chunk] else 0
  }

  /** Whether the 64 KB chunk holding `begin` (`begin >> 16`) is marked shareable. */
  predicate InShareableChunk(table: ShareableTable, begin: u32)
  {
    ShareableAt(table, Shr(begin, 16)) != 0
  }

  /** `begin >> 16` is the index of the 64 KB chunk holding `begin`. */
  lemma ChunkIndex(table: ShareableTable, begin: u32)
    ensures InShareableChunk(table, begin) <==> ShareableAt(table, begin / TwoTo16) != 0
  {
    ShrBy16(begin);
  }

  /** The address used for the overlap test: in a shareable chunk only the offset
      within the chunk (`begin & 0xffff`), elsewhere the address itself. */
  function CompareAddr(table: ShareableTable, begin: u32): (addr: u32)
    ensures InShareableChunk(table, begin) ==> addr == begin % TwoTo16
    ensures !InShareableChunk(table, begin) ==> addr == begin
  {
    MaskLow16(begin);
    if InShareableChunk(table, begin) then And(begin, 0xFFFF) else begin
  }

  // ---------------------------------------------------------------------------
  // The overlap test
  // ---------------------------------------------------------------------------

  /** The fast path's conflict test against a decoded lock word, in u64 arithmetic. */
  predicate Blocks(lock: LockState, addr: u32, size: u32)
  {
    && lock.bits == RangeLocked
    && !(|| Add64(addr, size) <= lock.addr
         || addr >= Add64(lock.addr, lock.size))
  }

  /** Address `x` lies in the half-open range [begin, begin+size). */
  ghost predicate Within(x: int, begin: int, size: int)
  {
    begin <= x < begin + size
  }

  /** The two half-open ranges share at least one address. */
  ghost predicate Intersect(a: int, s: int, b: int, t: int)
  {
    exists x :: Within(x, a, s) && Within(x, b, t)
  }

  /** Every genuine overlap with a `range_locked` range is caught by the test. */
  lemma BlocksSound(lock: LockState, addr: u32, size: u32)
    requires lock.bits == RangeLocked
    requires Intersect(addr, size, lock.addr, lock.size)
    ensures Blocks(lock, addr, size)
  {
    var x :| Within(x, addr, size) && Within(x, lock.addr, lock.size);
  }

  /** For non-empty ranges the u64 test is exactly interval intersection: the
      sums cannot wrap, since both operands are below 2^32. */
  lemma BlocksExact(lock: LockState, addr: u32, size: u32)
    requires size != 0 && lock.size != 0
    ensures Blocks(lock, addr, size) <==>
              lock.bits == RangeLocked && Intersect(addr, size, lock.addr, lock.size)
  {
    if Blocks(lock, addr, size) {
      var x := if addr <= lock.addr then lock.addr else addr;
      assert Within(x, addr, size) && Within(x, lock.addr, lock.size);
    }
    if lock.bits == RangeLocked && Intersect(addr, size, lock.addr, lock.size) {
      BlocksSound(lock, addr, size);
    }
  }

  // ---------------------------------------------------------------------------
  // The fast path
  // ---------------------------------------------------------------------------

  /** The two loads of the caller's stall indicator (`res`), when it has one. */
  datatype ResLoads = ResLoads(first: u64, second: u64)

  /** What the fast path observes of shared state: both loads of the lock word,
      the stall indicator (None for a null `res`) and the shareable table. */
  datatype Observation = Observation(
    firstLock: u64,
    secondLock: u64,
    res: Option<ResLoads>,
    table: ShareableTable)

  /** `res & 127`: the pending-stall bits of an indicator value. */
  function Pending(v: u64): (p: u64)
    ensures p == v % 128
  {
    MaskLow7(v);
    And(v, 127)
  }

  function FirstPending(obs: Observation): u64
  {
    match obs.res
    case None => 0
    case Some(r) => Pending(r.first)
  }

  function SecondPending(obs: Observation): u64
  {
    match obs.res
    case None => 0
    case Some(r) => Pending(r.second)
  }

  datatype Outcome = FastSuccess | SlowPath

  /** The first snapshot allows an optimistic publication: no conflicting
      `range_locked` range and no stall request. */
  predicate MayPublish(obs: Observation, begin: u32, size: u32)
  {
    !Blocks(Decode(obs.firstLock), CompareAddr(obs.table, begin), size) && FirstPending(obs) == 0
  }

  /** The second snapshot confirms the publication: the lock word is idle or
      unchanged, and still no stall request. */
  predicate Confirms(obs: Observation)
  {
    (obs.secondLock == 0 || obs.secondLock == obs.firstLock) && SecondPending(obs) == 0
  }

  /** How the fast path ends. */
  function FastPath(obs: Observation, begin: u32, size: u32): Outcome
  {
    if MayPublish(obs, begin, size) && Confirms(obs) then FastSuccess else SlowPath
  }

  /** The stores the fast path makes to the caller's slot, in order. */
  function SlotWrites(obs: Observation, begin: u32, size: u32): (w: seq<u64>)
    ensures |w| <= 2
    ensures w != [] ==> w[0] == begin + size * TwoTo32
    ensures |w| == 2 ==> w[1] == 0
  {
    if !MayPublish(obs, begin, size) then []
    else if Confirms(obs) then [SlotValue(begin, size)]
    else [SlotValue(begin, size), 0]
  }

  /** `range_lock`, up to the call of the slow path: FastSuccess when the
      optimistic publication stands, SlowPath when the caller must fall back to
      `range_lock_internal` (with the slot as this method leaves it). */
  method RangeLock(obs: Observation, slot: RangeLockSlot, begin: u32, size: u32) returns (o: Outcome)
    modifies slot
    ensures o == FastPath(obs, begin, size)
    ensures slot.stores == old(slot.stores) + SlotWrites(obs, begin, size)
    ensures slot.value == if SlotWrites(obs, begin, size) == [] then old(slot.value)
                          else SlotWrites(obs, begin, size)[|SlotWrites(obs, begin, size)| - 1]
  {
    var lockVal := obs.firstLock;
    var lockAddr: u64 := Low32(lockVal);
    var lockSize: u32 := Low32(Shr(lockVal, 35));
    var lockBits := And(lockVal, RangeMask);
    var resVal := match obs.res case None => 0 case Some(r) => And(r.first, 127);

    var addr: u64 := begin;
    if ShareableAt(obs.table, Shr(begin, 16)) != 0 {
      addr := And(addr, 0xFFFF);
    }

    if (lockBits != RangeLocked || Add64(addr, size) <= lockAddr || addr >= Add64(lockAddr, lockSize))
       && resVal == 0
    {
      // Publish the range first, then check that the lock word still allows it.
      slot.Store(Or(begin, size * TwoTo32));

      var newLockVal := obs.secondLock;
      var newResVal := match obs.res case None => 0 case Some(r) => And(r.second, 127);

      if newLockVal == 0 && newResVal == 0 {
        return FastSuccess;
      }
      if newLockVal == lockVal && newResVal == 0 {
        return FastSuccess;
      }
      slot.Store(0);
    }
    // Fall back to the slow path.
    return SlowPath;
  }

  // ---------------------------------------------------------------------------
  // Properties of the fast path
  // ---------------------------------------------------------------------------

  /** A conflicting `range_locked` range in the first snapshot: the slot is never
      written and the caller goes to the slow path. */
  lemma ConflictSkipsPublication(obs: Observation, begin: u32, size: u32)
    requires Decode(obs.firstLock).bits == RangeLocked
    requires Intersect(CompareAddr(obs.table, begin), size,
                       Decode(obs.firstLock).addr, Decode(obs.firstLock).size)
    ensures SlotWrites(obs, begin, size) == []
    ensures FastPath(obs, begin, size) == SlowPath
  {
    BlocksSound(Decode(obs.firstLock), CompareAddr(obs.table, begin), size);
  }

  /** A pending stall request at the first load of `res`: the slot is never
      written and the caller goes to the slow path. */
  lemma StallSkipsPublication(obs: Observation, begin: u32, size: u32)
    requires obs.res.Some? && obs.res.value.first % 128 != 0
    ensures SlotWrites(obs, begin, size) == []
    ensures FastPath(obs, begin, size) == SlowPath
  {
  }

  /** The fast path succeeds exactly when the first snapshot allows the publication,
      the second lock word is 0 or equal to the first, and no stall is pending at
      the second load; the slot then holds the unfolded range. */
  lemma FastSuccessIff(obs: Observation, begin: u32, size: u32)
    ensures FastPath(obs, begin, size) == FastSuccess <==>
              && !Blocks(Decode(obs.firstLock), CompareAddr(obs.table, begin), size)
              && FirstPending(obs) == 0
              && (obs.secondLock == 0 || obs.secondLock == obs.firstLock)
              && SecondPending(obs) == 0
    ensures FastPath(obs, begin, size) == FastSuccess ==>
              SlotWrites(obs, begin, size) == [begin + size * TwoTo32]
  {
  }

  /** For non-empty ranges, the fast path's decision in terms of the ranges
      themselves: it succeeds exactly when the first lock is not a
      `range_locked` range sharing an address with the (folded) access, no
      stall is pending at either load of a non-null `res`, and the second lock
      word is 0 or equal to the first. */
  lemma FastSuccessExact(obs: Observation, begin: u32, size: u32)
    requires size != 0 && Decode(obs.firstLock).size != 0
    ensures FastPath(obs, begin, size) == FastSuccess <==>
              && !(Decode(obs.firstLock).bits == RangeLocked
                   && Intersect(CompareAddr(obs.table, begin), size,
                                Decode(obs.firstLock).addr, Decode(obs.firstLock).size))
              && (obs.res.Some? ==> obs.res.value.first % 128 == 0 && obs.res.value.second % 128 == 0)
              && (obs.secondLock == 0 || obs.secondLock == obs.firstLock)
  {
    BlocksExact(Decode(obs.firstLock), CompareAddr(obs.table, begin), size);
  }

  /** A publication that the second snapshot does not confirm is withdrawn (the
      slot is reset to 0) before the slow path is entered. */
  lemma FailedValidationResetsSlot(obs: Observation, begin: u32, size: u32)
    requires MayPublish(obs, begin, size) && !Confirms(obs)
    ensures SlotWrites(obs, begin, size) == [begin + size * TwoTo32, 0]
    ensures FastPath(obs, begin, size) == SlowPath
  {
  }

  /** Whenever the fast path returns, neither observed lock word conflicts with the
      access: a fast-path access never proceeds against the latest lock it saw. */
  lemma FastSuccessIsConflictFree(obs: Observation, begin: u32, size: u32)
    requires FastPath(obs, begin, size) == FastSuccess
    ensures !Blocks(Decode(obs.firstLock), CompareAddr(obs.table, begin), size)
    ensures !Blocks(Decode(obs.secondLock), CompareAddr(obs.table, begin), size)
  {
    if obs.secondLock == 0 {
      IdleWordDecodes();
    }
  }

  /** Two accesses in shareable chunks with the same offset inside their chunk are
      the same address for conflict purposes: the fast path decides them alike. */
  lemma SharedAliasesDecideAlike(obs: Observation, a: u32, b: u32, size: u32)
    requires InShareableChunk(obs.table, a) && InShareableChunk(obs.table, b)
    requires a % TwoTo16 == b % TwoTo16
    ensures CompareAddr(obs.table, a) == CompareAddr(obs.table, b)
    ensures FastPath(obs, a, size) == FastPath(obs, b, size)
  {
  }

  /** Outside shareable chunks addresses are compared unfolded: two different
      addresses stay different for conflict purposes. */
  lemma UnsharedAddressesStayDistinct(table: ShareableTable, a: u32, b: u32)
    requires !InShareableChunk(table, a) && !InShareableChunk(table, b)
    requires a != b
    ensures CompareAddr(table, a) != CompareAddr(table, b)
  {
  }
}
