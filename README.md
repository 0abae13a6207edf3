# Range-lock fast path and EDAT decrypter cursor, in Dafny

This project models two sequential pieces of the emulator's code and proves
properties of them.

1. **The fast path of `vm::range_lock`.** It is the hot path that every emulated
   memory access takes. One 64-bit global lock word describes the active
   administrative lock:
   - bits 0..31 hold its address;
   - bits 32..34 hold its kind (`range_lock_flags`);
   - bits 35..63 hold its size.

   Each accessor thread publishes the range it is about to touch in its own
   slot, as `begin | size << 32`. The fast path then does these steps:
   - it reads the lock word;
   - it folds the target address to its low 16 bits when the target's 64 KB
     chunk is marked shareable;
   - it tests for overlap, but only against a `range_locked` lock;
   - it publishes the slot;
   - it re-reads the lock word and the thread's stall indicator (`res`);
   - it either returns, or clears the slot and falls back to the slow path.

   Module `VmLocking` (vm_locking.dfy) has a specification of these steps, made
   of functions: `Decode`, `CompareAddr`, `Blocks`, `FastPath` and
   `SlotWrites`. It also has the imperative method `RangeLock`, which writes a
   `RangeLockSlot` object in place and is proved against that specification.
   The two loads of the lock word and the two loads of `res` are inputs,
   bundled in an `Observation`.

2. **The file cursor of `EDATADecrypter`.** This is the read-only file object
   that serves decrypted EDAT/SDAT contents. Module `Unedat` (unedat.dfy)
   models it as the class `EdataDecrypter`. The class has the source's fields
   and its constructors, plus `Stat`, `Trunc`, `Read`, `Write`, `Seek` and
   `Size`. `seek` mixes `s64` and `u64`. The model computes its target exactly
   as C++ does: in `u64`, wrapping at 2^64, then reading the bits as `s64`.
   That target is `SeekTarget`.

Module `Bits` (bits.dfy) holds these pieces:
- the fixed-width integer types;
- the C++ operators `&`, `|` and `>>`, defined bit by bit on naturals;
- the facts that give those operators their meaning on bit fields: masking
  keeps a field, and OR of disjoint fields is their sum.

Module `Wrappers` (wrappers.dfy) holds `Option`, which models the nullable
`res` pointer.

## Model

| member | source | states |
|---|---|---|
| `Bits.And` | rpcs3/Emu/Memory/vm_locking.h:50 | `a & b` is never larger than either operand |
| `Bits.Or` | rpcs3/Emu/Memory/vm_locking.h:64 | the bitwise OR of a and b is at least each operand and at most their sum |
| `Bits.Shr` | rpcs3/Emu/Memory/vm_locking.h:49 | `>>`, one bit at a time; `ShrIsDiv` proves it is division by 2^k |
| `Bits.Add64` | rpcs3/Emu/Memory/vm_locking.h:61 | u64 `+`, wrapping at 2^64; `Add64WrapsOnce` proves it is the true sum, or the true sum less 2^64 |
| `Bits.Add64WrapsOnce` | rpcs3/Crypto/unedat.h:103 | a u64 sum (`pos += bytesRead`, and the sums in the overlap test and in `seek`) is the true sum when it fits, and the true sum less 2^64 otherwise |
| `Bits.ShrIsDiv` | rpcs3/Emu/Memory/vm_locking.h:49 | `a >> k` is `a / 2^k` |
| `Bits.AndLowBits` | rpcs3/Emu/Memory/vm_locking.h:58 | `a & (2^k - 1)` is `a % 2^k`: masking keeps the low k bits |
| `Bits.AndShifted` | rpcs3/Emu/Memory/vm_locking.h:50 | `a & (m << k)` is `((a >> k) & m) << k`: a shifted mask selects a shifted field |
| `Bits.OrDisjoint` | rpcs3/Emu/Memory/vm_locking.h:64 | OR of `a` with `b << k` is `a + b * 2^k` when `a < 2^k` |
| `Bits.OrShifted` | rpcs3/Emu/Memory/vm_locking.h:25 | OR of `a << k` with `b << k` is (OR of `a` with `b`) `<< k` |
| `VmLocking.RangeFlagsConsistent` | rpcs3/Emu/Memory/vm_locking.h:14-30 | `range_locked == range_writable`; `range_normal` is `range_readable` OR `range_writable`; `range_deallocation` is `range_writable` OR `range_executable`; `range_sharing == range_executable`; `range_allocation == 0`; every special kind is unchanged by `& range_mask` |
| `VmLocking.KindWithinMask` | rpcs3/Emu/Memory/vm_locking.h:21 | any 3-bit kind placed at bit 32 is unchanged by `& range_mask` |
| `VmLocking.Low32` | rpcs3/Emu/Memory/vm_locking.h:48-49 | `static_cast<u32>`: a value below 2^32 is kept, and any value keeps its residue modulo 2^32 |
| `VmLocking.KindBits` | rpcs3/Emu/Memory/vm_locking.h:50 | `lock_val & range_mask` is bits 32..34 of the word, left in place |
| `VmLocking.Decode` | rpcs3/Emu/Memory/vm_locking.h:47-50 | the decoded address is the low 32 bits, the size is `u32(val >> 35)`, the kind is `val & range_mask`; the size fits 29 bits and the kind fits the mask; decoding loses nothing, because re-encoding the fields gives the word back |
| `VmLocking.DecodeEncode` | rpcs3/Emu/Memory/vm_locking.h:47-50 | decoding a word built from a well-formed address, kind and size returns those fields |
| `VmLocking.EncodeInjective` | rpcs3/Emu/Memory/vm_locking.h:47-50 | two well-formed states with the same lock word are the same state: the three fields do not overlap |
| `VmLocking.SplitWord` | rpcs3/Emu/Memory/vm_locking.h:47-50 | every 64-bit word is its low 32 bits, plus its 3-bit kind at bit 32, plus its top 29 bits at bit 35 |
| `VmLocking.IdleWordDecodes` | rpcs3/Emu/Memory/vm_locking.h:69 | the idle word 0 decodes to an empty `range_allocation` lock |
| `VmLocking.SlotValue` | rpcs3/Emu/Memory/vm_locking.h:64 | OR of `begin` with `u64{size} << 32` equals `begin + size * 2^32`; its low 32 bits are `begin` and its high 32 bits are `size` |
| `VmLocking.SlotValueOnto` | rpcs3/Emu/Memory/vm_locking.h:64 | every 64-bit slot value publishes exactly one (begin, size) pair |
| `VmLocking.CompareAddr` | rpcs3/Emu/Memory/vm_locking.h:53-59 | the compared address is `begin & 0xffff` (its offset in the chunk) exactly when `g_shareable[begin >> 16] != 0`, and `begin` otherwise |
| `VmLocking.ShareableAt` | rpcs3/Emu/Memory/vm_locking.h:56 | the entry `g_shareable[chunk]`; a chunk with no entry reads as 0, as in the zero-initialised array |
| `VmLocking.InShareableChunk` | rpcs3/Emu/Memory/vm_locking.h:56 | the test `g_shareable[begin >> 16]`; `ChunkIndex` proves it reads the entry of chunk `begin / 2^16` |
| `VmLocking.ChunkIndex` | rpcs3/Emu/Memory/vm_locking.h:56 | `begin >> 16` is the 64 KB chunk holding `begin`: the test is non-zero exactly when that chunk's entry is non-zero |
| `VmLocking.Pending` | rpcs3/Emu/Memory/vm_locking.h:51 | `res & 127` is the indicator's low 7 bits |
| `VmLocking.FirstPending` | rpcs3/Emu/Memory/vm_locking.h:51 | a null `res` gives 0, otherwise `Pending` of the first load (`res & 127`) |
| `VmLocking.SecondPending` | rpcs3/Emu/Memory/vm_locking.h:67 | a null `res` gives 0, otherwise `Pending` of the second load (`res & 127`) |
| `VmLocking.Blocks` | rpcs3/Emu/Memory/vm_locking.h:61 | the negated first conjunct of the test: kind `range_locked` and neither u64 comparison clears the range; `BlocksSound` and `BlocksExact` prove it is exact interval intersection for non-empty ranges and conservative otherwise |
| `VmLocking.BlocksSound` | rpcs3/Emu/Memory/vm_locking.h:61 | when the kind is `range_locked`, any access range that shares an address with the lock's range fails the u64 test |
| `VmLocking.BlocksExact` | rpcs3/Emu/Memory/vm_locking.h:61 | for non-empty ranges, the u64 test fails exactly when the kind is `range_locked` and the half-open ranges intersect; no sum can wrap |
| `VmLocking.MayPublish` | rpcs3/Emu/Memory/vm_locking.h:61 | the guard of the publication: no conflict in the first snapshot and `res & 127 == 0` at the first load |
| `VmLocking.Confirms` | rpcs3/Emu/Memory/vm_locking.h:66-77 | the second snapshot keeps the publication: the new lock word is 0 or equal to the first, and `res & 127 == 0` at the second load |
| `VmLocking.FastPath` | rpcs3/Emu/Memory/vm_locking.h:61-83 | the outcome: fast success exactly when both guards hold (`FastSuccessIff`), and then neither lock word conflicts (`FastSuccessIsConflictFree`) |
| `VmLocking.SlotWrites` | rpcs3/Emu/Memory/vm_locking.h:61-83 | the slot's stores, at most two: every non-empty list starts with the publication `begin + size * 2^32`, and a second store is always 0 |
| `VmLocking.RangeLockSlot.Store` | rpcs3/Emu/Memory/vm_locking.h:64 | a store sets the slot's value and appends it to the slot's history |
| `VmLocking.RangeLock` | rpcs3/Emu/Memory/vm_locking.h:45-84 | the result is `FastPath` of the observation; the slot's store history grows by exactly `SlotWrites` (none, the publication, or the publication then 0); the slot's final value is the last store, or is unchanged |
| `VmLocking.ConflictSkipsPublication` | rpcs3/Emu/Memory/vm_locking.h:61-83 | when the first lock word's kind is `range_locked` and its range shares an address with the (folded) access range, the slot is never written and control goes to the slow path |
| `VmLocking.StallSkipsPublication` | rpcs3/Emu/Memory/vm_locking.h:51-83 | a non-null `res` with non-zero low 7 bits at the first load means the slot is never written and control goes to the slow path |
| `VmLocking.FastSuccessIff` | rpcs3/Emu/Memory/vm_locking.h:61-77 | the fast path returns iff all of these hold: no conflict and no stall at the first snapshot, the second lock word is 0 or equal to the first, and no stall at the second load; the slot then holds `begin + size * 2^32`, with `begin` unfolded |
| `VmLocking.FastSuccessExact` | rpcs3/Emu/Memory/vm_locking.h:61-77 | for non-empty ranges, the fast path returns iff the first lock is not a `range_locked` range intersecting the folded access range, a non-null `res` has zero low 7 bits at both loads, and the second lock word is 0 or equal to the first |
| `VmLocking.FailedValidationResetsSlot` | rpcs3/Emu/Memory/vm_locking.h:64-83 | a publication that the second snapshot does not confirm is followed by a store of 0 before the slow path |
| `VmLocking.FastSuccessIsConflictFree` | rpcs3/Emu/Memory/vm_locking.h:61-77 | when the fast path returns, neither observed lock word conflicts with the access |
| `VmLocking.SharedAliasesDecideAlike` | rpcs3/Emu/Memory/vm_locking.h:53-61 | two addresses in shareable chunks with the same low 16 bits compare equal, and the fast path decides them alike |
| `VmLocking.UnsharedAddressesStayDistinct` | rpcs3/Emu/Memory/vm_locking.h:53-61 | outside shareable chunks, different addresses stay different for the overlap test |
| `Unedat.ToU64` | rpcs3/Crypto/unedat.h:115-117 | s64 to u64 in the conditional: a value in range is kept, and every value keeps its residue modulo 2^64 |
| `Unedat.ToS64` | rpcs3/Crypto/unedat.h:114-119 | a u64 read as s64 is negative exactly when it is at least 2^63, and converts back to the same u64 |
| `Unedat.WrapS64` | rpcs3/Crypto/unedat.h:114-117 | the wrapped value agrees with the integer modulo 2^64, and equals it when it fits in s64 |
| `Unedat.SeekTarget` | rpcs3/Crypto/unedat.h:114-117 | `seek_set` gives `offset`; `seek_cur` gives `offset + pos` wrapped to s64; `seek_end` gives `offset + size()` wrapped to s64; any other mode gives -1 |
| `Unedat.SumWraps` | rpcs3/Crypto/unedat.h:116-117 | `offset + base` computed in u64 and then converted to s64 equals the true sum wrapped to s64 |
| `Unedat.SeekWithoutOverflow` | rpcs3/Crypto/unedat.h:114-117 | when `offset + pos` (or `offset + size()`) fits in s64, the target is exactly that sum |
| `Unedat.TellIff` | rpcs3/Crypto/unedat.h:114-126 | `seek(0, seek_cur)` gives the cursor back iff the cursor is below 2^63; otherwise it is refused |
| `Unedat.PosAfterReads` | rpcs3/Crypto/unedat.h:103 | `pos` after a series of `read` calls returning `counts`, each applying `pos += bytesRead` in u64 as `EdataDecrypter.Read`'s ensures states; `ReadsAdvanceByTotal` proves it is the start plus the total, modulo 2^64 |
| `Unedat.ReadsAdvanceByTotal` | rpcs3/Crypto/unedat.h:100-105 | after any series of reads, the cursor has moved by the total of the counts returned, modulo 2^64 |
| `Unedat.EdataDecrypter.FromFile` | rpcs3/Crypto/unedat.h:74-75 | the SdataByFd constructor keeps the file and leaves `pos`, `file_size`, the block count, the buffer size and all keys at 0 |
| `Unedat.EdataDecrypter.WithKeys` | rpcs3/Crypto/unedat.h:77-80 | the Edat constructor also stores the given `rif_key` and `dev_key`; `pos` and `file_size` are 0 |
| `Unedat.EdataDecrypter.Stat` | rpcs3/Crypto/unedat.h:87-93 | the status reports `size == file_size` and not writable, and keeps the underlying file's other fields |
| `Unedat.EdataDecrypter.Trunc` | rpcs3/Crypto/unedat.h:95-98 | `trunc` returns false and changes nothing |
| `Unedat.EdataDecrypter.Read` | rpcs3/Crypto/unedat.h:100-105 | `read` returns exactly what `ReadData(pos, …)` reports and advances `pos` by it (mod 2^64); `read` itself changes no other field (what `ReadData` changes is left out) |
| `Unedat.EdataDecrypter.Write` | rpcs3/Crypto/unedat.h:107-110 | `write` returns 0 and changes nothing |
| `Unedat.EdataDecrypter.Seek` | rpcs3/Crypto/unedat.h:112-127 | a negative target returns u64(-1), sets the thread's error to `inval` and leaves `pos`; otherwise `pos` becomes the target, which is returned; after a seek, `pos` is below 2^63 or unchanged; only `pos` and the error can change |
| `Unedat.EdataDecrypter.Size` | rpcs3/Crypto/unedat.h:129 | `size()` returns `file_size` and changes nothing |

Notes on the model:
- The bitwise operators are defined on naturals, so that each field fact is
  proved by induction over bits.
- `u64` addition wraps explicitly (`Add64`).
- `static_cast<u32>` is `% 2^32`.
- The overlap test is exact interval intersection only when both ranges are
  non-empty. With an empty range it is conservative. For example, an access of
  size 0 at an address strictly inside a `range_locked` range still goes to the
  slow path. `BlocksSound` holds for all sizes.
- The shareable table is a map from chunk index to `u8`. A chunk with no entry
  reads as 0, as the zero-initialised global array does.

## Left out

- `range_lock_internal` (the slow path) is not modelled: its body is not part of this model. `RangeLock` ends where it would be called and returns `SlowPath`.
- `alloc_range_lock`, `free_range_lock`, `passive_lock`, `passive_unlock`, `cleanup_unlock` and `temporary_unlock` are left out: only their declarations exist here, and they are blocking or thread-registry primitives.
- `reader_lock`, `writer_lock`, `g_mutex` and `g_tls_locked` are left out for the same reason. The side that writes the lock word is not shown; `Encode` is the layout that `Decode` reads, not a model of a writer.
- Atomicity and memory ordering (`load`, `store`, `release`) are not modelled, nor is mutual exclusion across threads. The two loads of `g_range_lock` and of `res` are independent inputs.
- `VmLocking.RangeLockSlot.Store` models both `store` and `release(0)` as a plain store.
- `DecryptEDAT`, `VerifyEDATHeaderWithKLicense`, `GetEdatRifKeyFromRapFile`, `ReadHeader` and `ReadData` are foreign crypto and file I/O; only their declarations exist. `ReadData` is an oracle `(pos, size) -> count` passed to `Read`.
- `Unedat.EdataDecrypter.Read` does not model the bytes written into the caller's buffer; those come from `ReadData`.
- `Unedat.EdataDecrypter.Read` does not model what `ReadData` itself changes in the decrypter, such as its data buffer and `data_buf_size`: `ReadData` is a non-const member whose body is not part of this model. Its `modifies` clause names only `pos`, so the model assumes the call leaves the other fields alone.
- The `NPD_HEADER` and `EDAT_HEADER` layouts are left out: no code here parses them. So are the `npdHeader`, `edatHeader` and `data_buf` fields, and the `loaded_npdrm_keys` atomics.
- The EDAT/SDAT flag constants are declared; no modelled code uses them.
- `Unedat.EdataDecrypter.Stat` takes the underlying `edata_file.stat()` as a parameter. The field list of `fs::stat_t` comes from Utilities/File.h, which is not part of this model.
- `fs::g_tls_error` is a `ThreadError` object passed to `Seek`. Only the `inval` code is distinguished.
- `fs::seek_mode` values outside the three modes are the single case `SeekOther`.
- The destructor `~EDATADecrypter` has no behaviour to model.
- rpcs3/rpcs3qt/vfs_dialog_tab.cpp is Qt user interface and is not part of this model.
