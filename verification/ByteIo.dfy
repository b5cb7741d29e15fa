/**
  Byte-level transfers: the retry loops around `pwrite` and `pread`, the streaming copy, and how
  blocks are laid out in a run of bytes.  The kernel is an oracle: `answers(k)` is what its `k`-th
  call returns, negative for an error, zero for no progress, else the bytes it moved.
 */
module ByteIo {
  import opened Blocks

  // ---------------------------------------------------------------- layout

  const U64_LIMIT := 0x1_0000_0000_0000_0000

  /** `DeviceInfo::max_lba`. */
  function MaxLba(totalBytes: nat, blockSize: nat): nat {
    if blockSize == 0 then 0 else totalBytes / blockSize
  }

  /** Every addressable block lies on the device, so its offset and end fit an unsigned 64-bit word
      whenever the device's size does. */
  lemma AddressFits(lba: nat, blockSize: nat, totalBytes: nat)
    requires lba < MaxLba(totalBytes, blockSize)
    ensures lba * blockSize + blockSize <= totalBytes
  {
    var n := totalBytes / blockSize;
    assert n * blockSize <= totalBytes;
    assert (lba + 1) * blockSize <= n * blockSize;
  }

  /** Conversely the first LBA that is refused does not fit. */
  lemma MaxLbaExact(lba: nat, blockSize: nat, totalBytes: nat)
    requires blockSize > 0
    ensures lba < MaxLba(totalBytes, blockSize) <==> lba * blockSize + blockSize <= totalBytes
  {
    if lba < MaxLba(totalBytes, blockSize) {
      AddressFits(lba, blockSize, totalBytes);
    } else {
      var n := totalBytes / blockSize;
      assert totalBytes < n * blockSize + blockSize;
      assert n * blockSize <= lba * blockSize;
    }
  }

  /** Distinct blocks occupy disjoint ranges. */
  lemma DisjointBlocks(i: nat, j: nat, blockSize: nat)
    requires i < j
    ensures i * blockSize + blockSize <= j * blockSize
  {
    assert (i + 1) * blockSize <= j * blockSize;
  }

  /** `s` with the bytes from `at` on overwritten by `b`. */
  function Overlay(s: seq<byte>, at: nat, b: seq<byte>): (r: seq<byte>)
    requires at + |b| <= |s|
    ensures |r| == |s|
  {
    s[..at] + b + s[at + |b|..]
  }

  /** Block `i` of a run of bytes. */
  function Slice(bytes: seq<byte>, blockSize: nat, i: nat): Block {
    if i * blockSize + blockSize <= |bytes| then bytes[i * blockSize..i * blockSize + blockSize] else []
  }

  function Split(bytes: seq<byte>, blockSize: nat, count: nat): (blocks: seq<Block>)
    ensures |blocks| == count
  {
    seq(count, (i: nat) => Slice(bytes, blockSize, i))
  }

  lemma OverlayElsewhere(s: seq<byte>, at: nat, b: seq<byte>, from: nat, len: nat)
    requires at + |b| <= |s| && from + len <= |s|
    requires from + len <= at || at + |b| <= from
    ensures Overlay(s, at, b)[from..from + len] == s[from..from + len]
  {
  }

  lemma OverlayHere(s: seq<byte>, at: nat, b: seq<byte>, len: nat)
    requires |b| <= len && at + len <= |s|
    ensures Overlay(s, at, b)[at..at + len] == b + s[at..at + len][|b|..]
  {
  }

  lemma SliceWritten(bytes: seq<byte>, blockSize: nat, i: nat, data: seq<byte>)
    requires |data| <= blockSize && i * blockSize + blockSize <= |bytes|
    ensures |Slice(bytes, blockSize, i)| == blockSize
    ensures Slice(Overlay(bytes, i * blockSize, data), blockSize, i) == data + Slice(bytes, blockSize, i)[|data|..]
  {
    OverlayHere(bytes, i * blockSize, data, blockSize);
  }

  lemma SliceUntouched(bytes: seq<byte>, blockSize: nat, i: nat, data: seq<byte>, j: nat)
    requires i != j && |data| <= blockSize
    requires i * blockSize + blockSize <= |bytes| && j * blockSize + blockSize <= |bytes|
    ensures Slice(Overlay(bytes, i * blockSize, data), blockSize, j) == Slice(bytes, blockSize, j)
  {
    if j < i {
      DisjointBlocks(j, i, blockSize);
    } else {
      DisjointBlocks(i, j, blockSize);
    }
    OverlayElsewhere(bytes, i * blockSize, data, j * blockSize, blockSize);
  }

  /** Replacing the first bytes of one block replaces that block and no other. */
  lemma SplitAfterWrite(bytes: seq<byte>, blockSize: nat, count: nat, i: nat, data: seq<byte>)
    requires i < count && count * blockSize <= |bytes| && |data| <= blockSize
    requires i * blockSize + blockSize <= |bytes|
    ensures var blocks := Split(bytes, blockSize, count);
            var blocks' := Split(Overlay(bytes, i * blockSize, data), blockSize, count);
            && |blocks[i]| == blockSize
            && blocks' == blocks[i := data + blocks[i][|data|..]]
            && (|data| == blockSize ==> blocks' == blocks[i := data])
  {
    var blocks, blocks' := Split(bytes, blockSize, count), Split(Overlay(bytes, i * blockSize, data), blockSize, count);
    SliceWritten(bytes, blockSize, i, data);
    var updated := data + blocks[i][|data|..];
    assert |data| == blockSize ==> updated == data;
    forall j | 0 <= j < count ensures blocks'[j] == blocks[i := updated][j] {
      if j != i {
        DisjointBlocks(j, count, blockSize);
        SliceUntouched(bytes, blockSize, i, data, j);
      }
    }
  }

  // ---------------------------------------------------------------- retry loops

  /** What a call moves: nothing on an error, never more than asked. */
  function Moved(answer: int, asked: nat): nat {
    if answer <= 0 then 0 else if answer < asked then answer else asked
  }

  /** Bytes moved by the retry loop from its `k`-th call on, with `done` of `len` already moved. */
  function Transferred(answers: nat -> int, k: nat, done: nat, len: nat): (total: nat)
    requires done <= len
    ensures done <= total <= len
    decreases len - done
  {
    if done == len || answers(k) <= 0 then done
    else Transferred(answers, k + 1, done + Moved(answers(k), len - done), len)
  }

  /** The sum of the first `n` answers. */
  function Sum(answers: nat -> int, n: nat): int {
    if n == 0 then 0 else Sum(answers, n - 1) + answers(n - 1)
  }

  lemma {:induction false} SumMonotone(answers: nat -> int, m: nat, n: nat)
    requires m <= n && forall i | 0 <= i < n :: answers(i) > 0
    ensures Sum(answers, m) <= Sum(answers, n)
    decreases n
  {
    if m == n {
    } else {
      SumMonotone(answers, m, n - 1);
    }
  }

  lemma {:induction false} TransferFrom(answers: nat -> int, k: nat, done: nat, len: nat)
    requires done <= len && forall i | 0 <= i < k :: answers(i) > 0
    requires if done == len then Sum(answers, k) >= len else Sum(answers, k) == done
    ensures Transferred(answers, k, done, len) == len <==>
            exists n: nat :: (forall i | 0 <= i < n :: answers(i) > 0) && Sum(answers, n) >= len
    decreases len - done
  {
    if done < len && answers(k) > 0 {
      assert Sum(answers, k + 1) == Sum(answers, k) + answers(k);
      TransferFrom(answers, k + 1, done + Moved(answers(k), len - done), len);
    } else if done < len {
      forall n: nat | forall i | 0 <= i < n :: answers(i) > 0 ensures Sum(answers, n) < len {
        assert n <= k;
        SumMonotone(answers, n, k);
      }
    }
  }

  /** A transfer completes exactly when the kernel offers enough bytes before its first failure. */
  lemma TransferCompletes(answers: nat -> int, len: nat)
    ensures Transferred(answers, 0, 0, len) == len <==>
            exists n: nat :: (forall i | 0 <= i < n :: answers(i) > 0) && Sum(answers, n) >= len
  {
    TransferFrom(answers, 0, 0, len);
  }

  /** What a transfer moves, exactly: the whole range if the answers before the first failure offer that
      much, else all that they offer. */
  lemma {:induction false} TransferStops(answers: nat -> int, k: nat, done: nat, len: nat) returns (n: nat)
    requires done <= len && (forall i | 0 <= i < k :: answers(i) > 0)
    requires if done == len then Sum(answers, k) >= len else Sum(answers, k) == done
    ensures forall i | 0 <= i < n :: answers(i) > 0
    ensures if Sum(answers, n) >= len then Transferred(answers, k, done, len) == len
            else answers(n) <= 0 && Transferred(answers, k, done, len) == Sum(answers, n)
    decreases len - done
  {
    if done == len || answers(k) <= 0 {
      n := k;
    } else {
      assert Sum(answers, k + 1) == Sum(answers, k) + answers(k);
      n := TransferStops(answers, k + 1, done + Moved(answers(k), len - done), len);
    }
  }

  lemma TransferExactly(answers: nat -> int, len: nat) returns (n: nat)
    ensures forall i | 0 <= i < n :: answers(i) > 0
    ensures if Sum(answers, n) >= len then Transferred(answers, 0, 0, len) == len
            else answers(n) <= 0 && Transferred(answers, 0, 0, len) == Sum(answers, n)
  {
    n := TransferStops(answers, 0, 0, len);
  }

  /** One `pwrite` call, from byte `done` of the buffer on. */
  method Pwrite(dev: array<byte>, buf: seq<byte>, done: nat, offset: nat, answer: int) returns (ret: int)
    requires done <= |buf| && offset + (|buf| - done) <= dev.Length
    modifies dev
    ensures if answer <= 0 then ret == answer else ret == Moved(answer, |buf| - done)
    ensures forall i | 0 <= i < dev.Length ::
              dev[i] == if offset <= i < offset + ret then buf[done + i - offset] else old(dev[i])
  {
    if answer <= 0 {
      return answer;
    }
    ret := Moved(answer, |buf| - done);
    forall i | offset <= i < offset + ret {
      dev[i] := buf[done + i - offset];
    }
  }

  /** `write_block`: whatever the kernel answers, only the first `written` bytes of the target range
      change, they become those of `buf`, and the call succeeds exactly when that is all of `buf`. */
  method WriteBlock(dev: array<byte>, offset: nat, buf: seq<byte>, answers: nat -> int)
    returns (ok: bool, ghost written: nat)
    requires offset + |buf| <= dev.Length
    modifies dev
    ensures written == Transferred(answers, 0, 0, |buf|) && (ok <==> written == |buf|)
    ensures dev[..] == Overlay(old(dev[..]), offset, buf[..written])
  {
    var totalWritten, call := 0, 0;
    while totalWritten < |buf|
      invariant totalWritten <= |buf|
      invariant Transferred(answers, call, totalWritten, |buf|) == Transferred(answers, 0, 0, |buf|)
      invariant forall i | 0 <= i < dev.Length ::
                  dev[i] == if offset <= i < offset + totalWritten then buf[i - offset] else old(dev[i])
      decreases |buf| - totalWritten
    {
      var ret := Pwrite(dev, buf, totalWritten, offset + totalWritten, answers(call));
      if ret <= 0 {
        return false, totalWritten;
      }
      totalWritten, call := totalWritten + ret, call + 1;
    }
    return true, totalWritten;
  }

  /** One `pread` call. */
  method Pread(dev: array<byte>, dst: array<byte>, at: nat, len: nat, offset: nat, answer: int) returns (ret: int)
    requires dev != dst && offset + len <= dev.Length && at + len <= dst.Length
    modifies dst
    ensures if answer <= 0 then ret == answer else ret == Moved(answer, len)
    ensures forall i | 0 <= i < dst.Length ::
              dst[i] == if at <= i < at + ret then dev[offset + i - at] else old(dst[i])
  {
    if answer <= 0 {
      return answer;
    }
    ret := Moved(answer, len);
    forall i | at <= i < at + ret {
      dst[i] := dev[offset + i - at];
    }
  }

  /** `read_block`: the first `got` bytes of the destination become those of the device, the rest of
      it stays, and the call succeeds exactly when the whole range was read. */
  method ReadBlock(dev: array<byte>, offset: nat, dst: array<byte>, at: nat, len: nat, answers: nat -> int)
    returns (ok: bool, ghost got: nat)
    requires dev != dst && offset + len <= dev.Length && at + len <= dst.Length
    modifies dst
    ensures got == Transferred(answers, 0, 0, len) && (ok <==> got == len)
    ensures dst[..] == Overlay(old(dst[..]), at, dev[offset..offset + got])
  {
    var totalRead, call := 0, 0;
    while totalRead < len
      invariant totalRead <= len
      invariant Transferred(answers, call, totalRead, len) == Transferred(answers, 0, 0, len)
      invariant forall i | 0 <= i < dst.Length ::
                  dst[i] == if at <= i < at + totalRead then dev[offset + i - at] else old(dst[i])
      decreases len - totalRead
    {
      var ret := Pread(dev, dst, at + totalRead, len - totalRead, offset + totalRead, answers(call));
      if ret <= 0 {
        return false, totalRead;
      }
      totalRead, call := totalRead + ret, call + 1;
    }
    return true, totalRead;
  }

  // ---------------------------------------------------------------- streaming copy

  const CHUNK_SIZE := 64

  /** One 16-byte streaming store. */
  method Stream(dst: array<byte>, at: nat, s: seq<byte>)
    requires at + |s| <= dst.Length
    modifies dst
    ensures forall k | 0 <= k < dst.Length :: dst[k] == if at <= k < at + |s| then s[k - at] else old(dst[k])
  {
    forall i | at <= i < at + |s| {
      dst[i] := s[i - at];
    }
  }

  /** One iteration: four 16-byte loads, then four 16-byte streaming stores. */
  method CopyChunk(dst: array<byte>, to: nat, src: array<byte>, from: nat)
    requires dst != src && to + CHUNK_SIZE <= dst.Length && from + CHUNK_SIZE <= src.Length
    modifies dst
    ensures forall k | 0 <= k < dst.Length ::
              dst[k] == if to <= k < to + CHUNK_SIZE then src[from + k - to] else old(dst[k])
  {
    var s0, s1 := src[from..from + 16], src[from + 16..from + 32];
    var s2, s3 := src[from + 32..from + 48], src[from + 48..from + 64];
    Stream(dst, to, s0);
    Stream(dst, to + 16, s1);
    Stream(dst, to + 32, s2);
    Stream(dst, to + 48, s3);
  }

  /** `nt_memcpy`: the 64-byte chunk loop copies every whole chunk of the range and nothing else,
      so on a multiple of 64 it is a plain copy. */
  method NtMemcpy(dst: array<byte>, to: nat, src: array<byte>, from: nat, len: nat)
    requires dst != src && to + len <= dst.Length && from + len <= src.Length
    requires to % 16 == 0 && from % 16 == 0
    modifies dst
    ensures dst[..] == Overlay(old(dst[..]), to, src[from..from + (len - len % CHUNK_SIZE)])
  {
    var chunks := len / CHUNK_SIZE;
    for i := 0 to chunks
      invariant forall k | 0 <= k < dst.Length ::
                  dst[k] == if to <= k < to + i * CHUNK_SIZE then src[from + k - to] else old(dst[k])
    {
      var offset := i * CHUNK_SIZE;
      CopyChunk(dst, to + offset, src, from + offset);
    }
  }
}
