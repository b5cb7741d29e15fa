/** The device and the memory pool as runs of bytes, and the blocks they stand for. */
module Storage {
  import opened Blocks
  import opened ByteIo

  const PAGE_ALIGNMENT := 4096

  /** Page alignment is enough for 16-byte stores and for whole 64-byte chunks. */
  lemma PageFacts(n: nat)
    requires n % PAGE_ALIGNMENT == 0
    ensures n % 16 == 0 && n % CHUNK_SIZE == 0
  {
    var k := n / PAGE_ALIGNMENT;
    assert n == 16 * (256 * k) && n == CHUNK_SIZE * (64 * k);
  }

  lemma MultipleOfPage(index: nat, blockSize: nat)
    requires blockSize % PAGE_ALIGNMENT == 0
    ensures (index * blockSize) % PAGE_ALIGNMENT == 0
  {
    var k := blockSize / PAGE_ALIGNMENT;
    assert index * blockSize == (index * k) * PAGE_ALIGNMENT;
  }

  lemma AllFit(totalBytes: nat, blockSize: nat)
    ensures MaxLba(totalBytes, blockSize) * blockSize <= totalBytes
  {
  }

  /** An open block device with the cache's block size. */
  class BlockDevice {
    const bytes: array<byte>
    const blockSize: nat

    constructor (bytes: array<byte>, blockSize: nat)
      ensures this.bytes == bytes && this.blockSize == blockSize
    {
      this.bytes := bytes;
      this.blockSize := blockSize;
    }

    function Count(): nat {
      MaxLba(bytes.Length, blockSize)
    }

    /** An LBA is in range exactly when all the bytes of its block are on the device. */
    lemma CountExact(lba: nat)
      requires blockSize > 0
      ensures lba < Count() <==> lba * blockSize + blockSize <= bytes.Length
    {
      MaxLbaExact(lba, blockSize, bytes.Length);
    }

    ghost function Blocks(): (blocks: seq<Block>)
      reads bytes
      ensures |blocks| == Count()
    {
      Split(bytes[..], blockSize, Count())
    }

    /** Block `lba` is `blockSize` bytes at `lba * blockSize`. */
    lemma BlockBytes(lba: nat)
      requires lba < Count()
      ensures lba * blockSize + blockSize <= bytes.Length
      ensures Blocks()[lba] == bytes[lba * blockSize..lba * blockSize + blockSize]
    {
      AddressFits(lba, blockSize, bytes.Length);
    }

    /** `write_lba`: on success the block is `data`; otherwise as much of it is as the kernel took.  The
        bytes are those at `lba * blockSize`. */
    method WriteLba(lba: nat, data: Block, answers: nat -> int) returns (ok: bool, ghost written: nat)
      requires lba < Count() && |data| == blockSize && bytes.Length < U64_LIMIT
      modifies bytes
      ensures written == Transferred(answers, 0, 0, blockSize) && (ok <==> written == blockSize)
      ensures lba * blockSize + blockSize <= bytes.Length
      ensures bytes[..] == Overlay(old(bytes[..]), lba * blockSize, data[..written])
      ensures |old(Blocks())[lba]| == blockSize
      ensures Blocks() == old(Blocks())[lba := data[..written] + old(Blocks())[lba][written..]]
      ensures ok ==> Blocks() == old(Blocks())[lba := data]
    {
      AddressFits(lba, blockSize, bytes.Length);
      var offset := lba * blockSize;
      assert offset + blockSize < U64_LIMIT;
      ok, written := WriteBlock(bytes, offset, data, answers);
      AllFit(bytes.Length, blockSize);
      SplitAfterWrite(old(bytes[..]), blockSize, Count(), lba, data[..written]);
      assert ok ==> data[..written] == data;
    }

    /** `read_lba` into the block at `at` of `dst`. */
    method ReadLba(lba: nat, dst: array<byte>, at: nat, answers: nat -> int) returns (ok: bool, ghost got: nat)
      requires lba < Count() && dst != bytes && at + blockSize <= dst.Length && bytes.Length < U64_LIMIT
      modifies dst
      ensures got == Transferred(answers, 0, 0, blockSize) && (ok <==> got == blockSize) && |Blocks()[lba]| == blockSize
      ensures lba * blockSize + blockSize <= bytes.Length
      ensures dst[..] == Overlay(old(dst[..]), at, bytes[lba * blockSize..lba * blockSize + got])
      ensures dst[..] == Overlay(old(dst[..]), at, Blocks()[lba][..got])
    {
      AddressFits(lba, blockSize, bytes.Length);
      var offset := lba * blockSize;
      assert offset + blockSize < U64_LIMIT;
      ok, got := ReadBlock(bytes, offset, dst, at, blockSize, answers);
      assert Blocks()[lba] == bytes[offset..offset + blockSize];
      assert bytes[offset..offset + blockSize][..got] == bytes[offset..offset + got];
    }
  }

  datatype PoolResult = Made(pool: MemoryPool) | BadSizes | NoMemory

  /** The pool: one allocation cut into slots, and the list of free slots. */
  class MemoryPool {
    const bytes: array<byte>
    const blockSize: nat
    const capacity: nat
    var freeList: seq<nat>

    /** Slots tile the allocation; a slot is page-aligned. */
    ghost predicate Valid() {
      && blockSize > 0 && blockSize % PAGE_ALIGNMENT == 0
      && bytes.Length == capacity * blockSize
    }

    ghost function Blocks(): (blocks: seq<Block>)
      reads bytes
      ensures |blocks| == capacity
    {
      Split(bytes[..], blockSize, capacity)
    }

    /** Only `New` calls this, after its checks. */
    constructor (totalSize: nat, blockSize: nat)
      requires blockSize > 0 && blockSize % PAGE_ALIGNMENT == 0 && totalSize > 0 && totalSize % blockSize == 0
      ensures Valid() && fresh(bytes) && this.blockSize == blockSize && capacity == totalSize / blockSize > 0
      ensures |freeList| == capacity && forall i | 0 <= i < capacity :: freeList[i] == i
    {
      bytes := new byte[totalSize](_ => 0);
      this.blockSize := blockSize;
      capacity := totalSize / blockSize;
      freeList := seq(totalSize / blockSize, i => i);
    }

    /** `MemoryPool::new`: refuses sizes that do not cut the allocation into whole aligned blocks, and
        fails when the allocation does; `memory` is the allocator's answer. */
    static method New(totalSize: nat, blockSize: nat, memory: bool) returns (made: PoolResult)
      ensures var bad := blockSize == 0 || blockSize % PAGE_ALIGNMENT != 0 ||
                         totalSize == 0 || totalSize % blockSize != 0;
              (made.BadSizes? <==> bad) && (made.NoMemory? <==> !bad && !memory)
      ensures made.Made? ==>
                var pool := made.pool;
                && pool.Valid() && fresh(pool) && fresh(pool.bytes) && pool.blockSize == blockSize
                && pool.capacity * blockSize == totalSize
                && |pool.freeList| == pool.capacity && forall i | 0 <= i < pool.capacity :: pool.freeList[i] == i
    {
      if blockSize == 0 || blockSize % PAGE_ALIGNMENT != 0 {
        return BadSizes;
      }
      if totalSize == 0 || totalSize % blockSize != 0 {
        return BadSizes;
      }
      if !memory {
        return NoMemory;
      }
      var pool := new MemoryPool(totalSize, blockSize);
      made := Made(pool);
    }

    method Allocate() returns (index: Option<nat>)
      modifies this
      ensures old(freeList) == [] ==> index == None && freeList == []
      ensures old(freeList) != [] ==>
                && index == Some(old(freeList)[|old(freeList)| - 1])
                && freeList == old(freeList)[..|old(freeList)| - 1]
    {
      if freeList == [] {
        return None;
      }
      index := Some(freeList[|freeList| - 1]);
      freeList := freeList[..|freeList| - 1];
    }

    method Deallocate(index: nat)
      modifies this
      ensures freeList == old(freeList) + [index]
    {
      freeList := freeList + [index];
    }

    /** `buffer_for_index`: where a slot begins.  It lies inside the allocation, on a page boundary. */
    method BufferForIndex(index: nat) returns (offset: nat)
      requires Valid() && index < capacity
      ensures offset == index * blockSize && offset + blockSize <= bytes.Length && offset % PAGE_ALIGNMENT == 0
    {
      offset := index * blockSize;
      assert (index + 1) * blockSize <= capacity * blockSize;
      MultipleOfPage(index, blockSize);
    }

    /** Streams a client's block into a slot (`fast_copy_nontemporal`). */
    method StoreBlock(index: nat, src: array<byte>)
      requires Valid() && index < capacity && src != bytes && src.Length == blockSize
      modifies bytes
      ensures Blocks() == old(Blocks())[index := src[..]]
    {
      var offset := BufferForIndex(index);
      PageFacts(offset);
      PageFacts(blockSize);
      NtMemcpy(bytes, offset, src, 0, blockSize);
      assert src[0..blockSize] == src[..];
      SplitAfterWrite(old(bytes[..]), blockSize, capacity, index, src[..]);
    }

    /** Copies a slot into a client's buffer (`fast_copy_temporal`). */
    method LoadBlock(index: nat, dst: array<byte>)
      requires Valid() && index < capacity && dst != bytes && dst.Length == blockSize
      modifies dst
      ensures dst[..] == Blocks()[index]
    {
      var offset := BufferForIndex(index);
      forall i | 0 <= i < blockSize {
        dst[i] := bytes[offset + i];
      }
    }

    /** Reads a device block into a slot; on failure a prefix of it has arrived. */
    method FetchBlock(index: nat, device: BlockDevice, lba: nat, answers: nat -> int)
      returns (ok: bool, ghost got: nat)
      requires Valid() && index < capacity && device.bytes != bytes && device.blockSize == blockSize
      requires lba < device.Count() && device.bytes.Length < U64_LIMIT
      modifies bytes
      ensures ok ==> Blocks() == old(Blocks())[index := device.Blocks()[lba]]
      ensures got == Transferred(answers, 0, 0, blockSize) && (ok <==> got == blockSize)
      ensures |device.Blocks()[lba]| == |old(Blocks())[index]| == blockSize
      ensures !ok ==> Blocks() == old(Blocks())[index := device.Blocks()[lba][..got] + old(Blocks())[index][got..]]
    {
      var offset := BufferForIndex(index);
      ok, got := device.ReadLba(lba, bytes, offset, answers);
      ghost var data := device.Blocks()[lba];
      SplitAfterWrite(old(bytes[..]), blockSize, capacity, index, data[..got]);
      assert ok ==> data[..got] == data;
    }

    /** The bytes of a slot. */
    method GetBlock(index: nat) returns (data: Block)
      requires Valid() && index < capacity
      ensures data == Blocks()[index] && |data| == blockSize
    {
      var offset := BufferForIndex(index);
      data := bytes[offset..offset + blockSize];
    }
  }
}
