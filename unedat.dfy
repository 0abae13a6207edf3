/**
  The file cursor of `EDATADecrypter`, the read-only file object through which
  the emulator reads the decrypted contents of an EDAT or SDAT file.

  The object keeps the decrypted size (`file_size`) and a cursor (`pos`).
  `read` asks the decryptor for bytes at the cursor and advances it by the
  number it got; `seek` moves the cursor relative to the start, the cursor or
  the end and refuses negative targets; `write` and `trunc` always refuse;
  `size` and `stat` report the decrypted size.

  The decryption itself (`ReadData`) is an oracle passed to `Read`; the status
  of the underlying encrypted file is passed to `Stat`; the thread-local
  error code `fs::g_tls_error` is the object `ThreadError`.
*/
module Unedat {
  import opened Bits

  // Flags of the EDAT header.
  const SdatFlag: u32 := 0x0100_0000
  const EdatCompressedFlag: u32 := 0x0000_0001
  const EdatFlag0x02: u32 := 0x0000_0002
  const EdatEncryptedKeyFlag: u32 := 0x0000_0008
  const EdatFlag0x10: u32 := 0x0000_0010
  const EdatFlag0x20: u32 := 0x0000_0020
  const EdatDebugDataFlag: u32 := 0x8000_0000

  const TwoTo63: int := 0x8000_0000_0000_0000
  const MaxU64: u64 := 0xFFFF_FFFF_FFFF_FFFF

  type s64 = x: int | -0x8000_0000_0000_0000 <= x < 0x8000_0000_0000_0000
  type u128 = x: int | 0 <= x < 0x1_0000_0000_0000_0000_0000_0000_0000_0000

  /** Conversion of any integer to u64: the value modulo 2^64. */
  function ToU64(x: int): (u: u64)
    ensures 0 <= x < TwoTo64 ==> u == x
    ensures (x - u) % TwoTo64 == 0
  {
    x % TwoTo64
  }

  /** Conversion of a u64 to s64: the same 64 bits read in two's complement. */
  function ToS64(u: u64): (s: s64)
    ensures s >= 0 <==> u < TwoTo63
    ensures ToU64(s) == u
  {
    if u < TwoTo63 then u else u - TwoTo64
  }

  /** The s64 that a 64-bit machine holds for the integer x: the one value in
      the s64 range that agrees with x modulo 2^64. */
  function WrapS64(x: int): (s: s64)
    ensures -TwoTo63 <= x < TwoTo63 ==> s == x
    ensures (x - s) % TwoTo64 == 0
  {
    (x + TwoTo63) % TwoTo64 - TwoTo63
  }

  /** `fs::seek_mode`; `SeekOther` stands for any value outside the three modes. */
  datatype SeekMode = SeekSet | SeekCur | SeekEnd | SeekOther

  /** `new_pos` in `seek`. The conditional expression has type u64 (the s64
      offset is converted and the sums wrap at 2^64), and its value is then
      converted to s64. */
  function SeekTarget(offset: s64, whence: SeekMode, pos: u64, size: u64): (t: s64)
    ensures whence == SeekSet ==> t == offset
    ensures whence == SeekCur ==> t == WrapS64(offset + pos)
    ensures whence == SeekEnd ==> t == WrapS64(offset + size)
    ensures whence == SeekOther ==> t == -1
  {
    var u: u64 := match whence
      case SeekSet => ToU64(offset)
      case SeekCur => Add64(ToU64(offset), pos)
      case SeekEnd => Add64(ToU64(offset), size)
      case SeekOther => ToU64(-1);
    SumWraps(offset, pos);
    SumWraps(offset, size);
    ToS64(u)
  }

  /** `offset + base` computed in u64 and read as s64 is the sum wrapped to s64. */
  lemma SumWraps(offset: s64, base: u64)
    ensures ToS64(Add64(ToU64(offset), base)) == WrapS64(offset + base)
  {
    var x := offset + base;
    var u := Add64(ToU64(offset), base);
    if offset >= 0 {
      assert ToU64(offset) == offset;
      if x < TwoTo63 {
        assert u == x;
      } else if x < TwoTo64 {
        assert u == x;
      } else {
        assert u == x - TwoTo64;
      }
    } else {
      assert ToU64(offset) == offset + TwoTo64;
      if x < 0 {
        assert u == x + TwoTo64;
      } else {
        assert u == x;
      }
    }
  }

  /** Two integers that agree modulo 2^64, one of them in the s64 range, give that one. */
  lemma SameResidueSameS64(x: int, s: s64)
    requires (x - s) % TwoTo64 == 0
    ensures WrapS64(x) == s
  {
    var w := WrapS64(x);
    var d := (w - s) / TwoTo64;
    assert w - s == d * TwoTo64;
  }

  /** The status record `fs::stat_t`. */
  datatype StatInfo = StatInfo(
    isDirectory: bool,
    isWritable: bool,
    size: u64,
    atime: int,
    mtime: int,
    ctime: int)

  /** The codes of `fs::error` that this object sets; `Other` stands for the rest. */
  datatype FsError = NoError | Inval | Other(code: nat)

  /** The calling thread's last file-system error (`fs::g_tls_error`). */
  class ThreadError {
    var error: FsError
  }

  /** The encrypted file the decrypter reads from (`fs::file`), moved in on construction. */
  datatype FileHandle = FileHandle(id: nat)

  class EdataDecrypter {
    const edataFile: FileHandle
    var fileSize: u64
    var totalBlocks: u32
    var pos: u64
    var dataBufSize: u64
    var decKey: u128
    var rifKey: u128
    var devKey: u128

    /** The SdataByFd constructor: everything zero but the file. */
    constructor FromFile(input: FileHandle)
      ensures edataFile == input
      ensures pos == 0 && fileSize == 0 && totalBlocks == 0 && dataBufSize == 0
      ensures decKey == 0 && rifKey == 0 && devKey == 0
    {
      edataFile := input;
      fileSize, totalBlocks, pos, dataBufSize := 0, 0, 0, 0;
      decKey, rifKey, devKey := 0, 0, 0;
    }

    /** The Edat constructor: as above, but keeping the device and rif keys. */
    constructor WithKeys(input: FileHandle, devKey: u128, rifKey: u128)
      ensures edataFile == input
      ensures pos == 0 && fileSize == 0 && totalBlocks == 0 && dataBufSize == 0
      ensures decKey == 0 && this.rifKey == rifKey && this.devKey == devKey
    {
      edataFile := input;
      fileSize, totalBlocks, pos, dataBufSize := 0, 0, 0, 0;
      decKey := 0;
      this.rifKey := rifKey;
      this.devKey := devKey;
    }

    /** `stat`: the underlying file's status, with the decrypted size and not writable. */
    method Stat(underlying: StatInfo) returns (s: StatInfo)
      ensures s.size == fileSize && !s.isWritable
      ensures s.isDirectory == underlying.isDirectory
      ensures s.atime == underlying.atime && s.mtime == underlying.mtime && s.ctime == underlying.ctime
    {
      s := underlying;
      s := s.(isWritable := false);
      s := s.(size := fileSize);
    }

    /** `trunc`: always refused. */
    method Trunc(length: u64) returns (ok: bool)
      ensures !ok
    {
      return false;
    }

    /** `read`: asks the decryptor for up to `size` bytes at the cursor and
        advances the cursor (modulo 2^64) by the count it reports. */
    method Read(readData: (u64, u64) -> u64, size: u64) returns (n: u64)
      modifies this`pos
      ensures n == readData(old(pos), size)
      ensures pos == Add64(old(pos), n)
    {
      var bytesRead := readData(pos, size);
      pos := Add64(pos, bytesRead);
      return bytesRead;
    }

    /** `write`: always refused; nothing is written. */
    method Write(count: u64) returns (n: u64)
      ensures n == 0
    {
      return 0;
    }

    /** `seek`: moves the cursor to the target `SeekTarget` computes and returns
        it; a negative target leaves the cursor, sets the thread's error to
        `inval` and returns u64(-1). */
    method Seek(offset: s64, whence: SeekMode, err: ThreadError) returns (r: u64)
      modifies this`pos, err
      ensures var t := SeekTarget(offset, whence, old(pos), fileSize);
              if t < 0 then r == MaxU64 && pos == old(pos) && err.error == Inval
              else r == t && pos == t && err.error == old(err.error)
      ensures pos < TwoTo63 || pos == old(pos)
    {
      var sz := Size();
      var u: u64 := match whence
        case SeekSet => ToU64(offset)
        case SeekCur => Add64(ToU64(offset), pos)
        case SeekEnd => Add64(ToU64(offset), sz)
        case SeekOther => ToU64(-1);
      var newPos := ToS64(u);

      if newPos < 0 {
        err.error := Inval;
        return MaxU64;
      }

      pos := newPos;
      return pos;
    }

    /** `size`: the decrypted size. */
    method Size() returns (r: u64)
      ensures r == fileSize
    {
      return fileSize;
    }
  }

  // ---------------------------------------------------------------------------
  // Properties of the cursor
  // ---------------------------------------------------------------------------

  /** A seek relative to the cursor or the end whose true sum fits s64 lands
      exactly on that sum when it is not negative, and is refused when it is. */
  lemma SeekWithoutOverflow(offset: s64, whence: SeekMode, pos: u64, size: u64)
    requires whence == SeekCur || whence == SeekEnd
    requires var base := if whence == SeekCur then pos else size;
             -TwoTo63 <= offset + base < TwoTo63
    ensures var base := if whence == SeekCur then pos else size;
            SeekTarget(offset, whence, pos, size) == offset + base
  {
  }

  /** `seek(0, seek_cur)` (the usual way to ask for the cursor) gives the cursor
      back exactly when the cursor is below 2^63, and is refused otherwise. */
  lemma TellIff(pos: u64, size: u64)
    ensures SeekTarget(0, SeekCur, pos, size) >= 0 <==> pos < TwoTo63
    ensures pos < TwoTo63 ==> SeekTarget(0, SeekCur, pos, size) == pos
  {
    if pos >= TwoTo63 {
      SameResidueSameS64(pos, pos - TwoTo64);
    }
  }

  /** `pos` after a series of `Read` calls that returned `counts`, in order:
      each call moves it as `Read`'s `ensures pos == Add64(old(pos), n)` says. */
  function PosAfterReads(pos: u64, counts: seq<u64>): u64
    decreases |counts|
  {
    if counts == [] then pos else PosAfterReads(Add64(pos, counts[0]), counts[1..])
  }

  function Sum(counts: seq<u64>): nat
  {
    if counts == [] then 0 else counts[0] + Sum(counts[1..])
  }

  /** After any series of reads the cursor has moved by the total number of
      bytes read, modulo 2^64. */
  lemma {:induction false} ReadsAdvanceByTotal(pos: u64, counts: seq<u64>)
    ensures PosAfterReads(pos, counts) == (pos + Sum(counts)) % TwoTo64
    decreases |counts|
  {
    if counts != [] {
      var next := Add64(pos, counts[0]);
      ReadsAdvanceByTotal(next, counts[1..]);
      ModAddCongruent(pos + counts[0], Sum(counts[1..]));
    }
  }

  /** Reducing one addend modulo 2^64 first does not change the sum modulo 2^64. */
  lemma ModAddCongruent(a: nat, b: nat)
    ensures (a % TwoTo64 + b) % TwoTo64 == (a + b) % TwoTo64
  {
    var q := a / TwoTo64;
    assert a == q * TwoTo64 + a % TwoTo64;
    assert a + b == (a % TwoTo64 + b) + q * TwoTo64;
  }
}
