/**
 * The state the block layer works on, updated in place: the flash, the
 * space allocator and the object index, whose inode entries hold the tails
 * (fi_last_block). Writing a block changes the flash and the allocator;
 * deleting a block changes the index.
 */
module FfsStore {
  import opened FfsTypes
  import opened FfsFlash
  import opened FfsIndex
  import opened FfsBlock

  /** Where the payload of a record reserved at `loc` starts. */
  function DataLoc(loc: FlashLoc): (r: FlashLoc)
    requires loc.offset + HEADER_SIZE < 0x1_0000_0000
    ensures r.area == loc.area && r.offset == loc.offset + HEADER_SIZE
  {
    FlashLoc(loc.area, loc.offset + HEADER_SIZE)
  }

  class BlockStore {
    var flash: Flash
    var alloc: Allocator
    var index: Index

    /**
     * The allocator is consistent, and every header and payload already
     * written in the area it allocates from ends at or below its cursor, so
     * a new reservation never overlaps written flash.
     */
    ghost predicate Valid()
      reads this
    {
      && AllocatorValid(alloc)
      && (forall loc :: loc in flash.headers && loc.area == alloc.area ==>
            loc.offset + HEADER_SIZE <= alloc.cursor)
      && (forall loc :: loc in flash.payloads && loc.area == alloc.area ==>
            loc.offset + |flash.payloads[loc]| <= alloc.cursor)
    }

    constructor (flash: Flash, alloc: Allocator, index: Index)
      requires AllocatorValid(alloc)
      requires forall loc :: loc in flash.headers && loc.area == alloc.area ==>
                 loc.offset + HEADER_SIZE <= alloc.cursor
      requires forall loc :: loc in flash.payloads && loc.area == alloc.area ==>
                 loc.offset + |flash.payloads[loc]| <= alloc.cursor
      ensures Valid()
      ensures this.flash == flash && this.alloc == alloc && this.index == index
    {
      this.flash := flash;
      this.alloc := alloc;
      this.index := index;
    }

    /**
     * ffs_block_write_disk: reserves room for the header and the payload,
     * writes the header, then the payload when there is one, and returns
     * the reserved location. Every failure returns at once with its code;
     * in this model a reservation is spent even when a write then fails, and a payload
     * failure leaves the header on flash without its payload.
     */
    method WriteDisk(d: DiskBlock, data: seq<uint8>) returns (r: Result<FlashLoc>)
      requires Valid()
      requires |data| == d.dataLen
      modifies this`flash, this`alloc
      ensures Valid()
      ensures flash.readFaults == old(flash.readFaults) && flash.writeFaults == old(flash.writeFaults)
      ensures var res := Reserve(old(alloc), HEADER_SIZE + d.dataLen);
        && (res.Failure? ==> r == Failure(res.error) && flash == old(flash) && alloc == old(alloc))
        && (res.Success? ==> alloc == res.value.1)
        && (res.Success? && res.value.0 in old(flash.writeFaults) ==>
              r == Failure(old(flash.writeFaults)[res.value.0]) && flash == old(flash))
        && (res.Success? && res.value.0 !in old(flash.writeFaults) ==>
              flash.headers == old(flash.headers)[res.value.0 := d])
        && (r.Success? <==>
              && res.Success?
              && res.value.0 !in old(flash.writeFaults)
              && (d.dataLen > 0 ==> DataLoc(res.value.0) !in old(flash.writeFaults)))
        && (r.Success? ==> r.value == res.value.0)
      ensures r.Success? ==>
        // exactly header plus payload reserved, at a location never written before
        && alloc.regions == old(alloc.regions) + [Region(r.value, HEADER_SIZE + d.dataLen)]
        && r.value !in old(flash.headers)
        && flash.headers == old(flash.headers)[r.value := d]
        && (d.dataLen == 0 ==> flash.payloads == old(flash.payloads))
        && (d.dataLen > 0 ==>
              && DataLoc(r.value) !in old(flash.payloads)
              && flash.payloads == old(flash.payloads)[DataLoc(r.value) := data])
      ensures r.Failure? && d.dataLen > 0 && Reserve(old(alloc), HEADER_SIZE + d.dataLen).Success?
                && Reserve(old(alloc), HEADER_SIZE + d.dataLen).value.0 !in old(flash.writeFaults) ==>
        // the payload write failed: a truncated record is left behind
        var loc := Reserve(old(alloc), HEADER_SIZE + d.dataLen).value.0;
        && r == Failure(old(flash.writeFaults)[DataLoc(loc)])
        && flash.payloads == old(flash.payloads)
      ensures r.Success? && d.magic == BLOCK_MAGIC && r.value !in flash.readFaults ==>
        ReadDisk(flash, r.value.area, r.value.offset) == Success(d)
    {
      var reserved := Reserve(alloc, HEADER_SIZE + d.dataLen);
      if reserved.Failure? {
        return Failure(reserved.error);
      }
      var loc := reserved.value.0;
      alloc := reserved.value.1;

      var written := WriteHeader(flash, loc, d);
      if written.Failure? {
        return Failure(written.error);
      }
      flash := written.value;

      if d.dataLen > 0 {
        written := WriteData(flash, DataLoc(loc), data);
        if written.Failure? {
          return Failure(written.error);
        }
        flash := written.value;
      }

      r := Success(loc);
    }

    /**
     * ffs_block_delete_from_ram: resolves the block in linked form (any
     * error is returned and nothing changes), moves the owning inode's tail
     * to the block's predecessor if the tail was this block, and removes the
     * block from the index.
     */
    method DeleteFromRam(blockId: uint32) returns (r: Outcome)
      requires Valid()
      requires blockId in index && index[blockId].BlockEntry? && IsBlockId(blockId)
      modifies this`index
      ensures Valid()
      ensures var res := FromHashEntry(flash, old(index), HashEntry(blockId, old(index)[blockId].blockLoc));
        && (res.Failure? ==> r == Fail(res.error) && index == old(index))
        && (res.Success? ==> r == Pass && index == DeleteFromIndex(old(index), blockId, res.value))
      ensures TailsValid(flash, old(index)) && PrevLinked(flash, old(index), blockId) ==>
                TailsValid(flash, index)
    {
      var entry := HashEntry(blockId, index[blockId].blockLoc);
      var res := FromHashEntry(flash, index, entry);
      if res.Failure? {
        return Fail(res.error);
      }
      var block := res.value;

      var inodeId := block.inode.value;
      if index[inodeId].lastBlock == Some(blockId) {
        index := index[inodeId := index[inodeId].(lastBlock := block.prev)];
      }

      index := index - {blockId};
      r := Pass;
      if TailsValid(flash, old(index)) && PrevLinked(flash, old(index), blockId) {
        DeleteKeepsTailsValid(flash, old(index), blockId);
      }
    }
  }

  /**
   * A client of WriteDisk: file 0x10000000 gets block A ("hi", first of the
   * chain) and then block B ("there", after A). The two records land one
   * after the other, each header followed by its payload.
   */
  method WriteScenario()
  {
    var file: uint32 := 0x10000000;
    var idA: uint32 := ID_BLOCK_MIN;
    var idB: uint32 := ID_BLOCK_MIN + 1;
    var s := new BlockStore(Flash(map[], map[], map[], map[]), Allocator(0, 4096, 0, []), map[]);

    var a := DiskBlock(BLOCK_MAGIC, idA, 0, file, ID_NONE, 2);
    var ra := s.WriteDisk(a, [0x68, 0x69]);
    assert Reserve(Allocator(0, 4096, 0, []), HEADER_SIZE + 2).Success?;
    assert ra == Success(FlashLoc(0, 0));
    assert s.alloc.cursor == 26 && s.alloc.area == 0;
    assert s.flash == Flash(map[FlashLoc(0, 0) := a], map[FlashLoc(0, 24) := [0x68, 0x69]], map[], map[]);

    var b := DiskBlock(BLOCK_MAGIC, idB, 1, file, idA, 5);
    var rb := s.WriteDisk(b, [0x74, 0x68, 0x65, 0x72, 0x65]);
    assert rb == Success(FlashLoc(0, 26));
    assert s.flash.headers == map[FlashLoc(0, 0) := a, FlashLoc(0, 26) := b];
    assert ReadDisk(s.flash, 0, 26) == Success(b);
  }

  /**
   * A client of DeleteFromRam. Flash holds the headers of A and B, at the
   * places WriteScenario put them (payloads are not read and are left out),
   * and the caller has indexed A and B and made B the tail: deleting B moves the
   * tail back to A, deleting A leaves the file without blocks and both ids
   * unindexed.
   */
  method DeleteScenario()
  {
    var file: uint32 := 0x10000000;
    var idA: uint32 := ID_BLOCK_MIN;
    var idB: uint32 := ID_BLOCK_MIN + 1;
    var inodeLoc := FlashLoc(1, 0);
    var a := DiskBlock(BLOCK_MAGIC, idA, 0, file, ID_NONE, 2);
    var b := DiskBlock(BLOCK_MAGIC, idB, 1, file, idA, 5);
    var flash := Flash(map[FlashLoc(0, 0) := a, FlashLoc(0, 26) := b], map[], map[], map[]);
    var index := map[file := InodeEntry(inodeLoc, Some(idB)),
                     idA := BlockEntry(FlashLoc(0, 0)), idB := BlockEntry(FlashLoc(0, 26))];
    var s := new BlockStore(flash, Allocator(0, 4096, 55, []), index);

    assert ReadDisk(flash, 0, 26) == Success(b);
    assert FromHashEntry(flash, index, HashEntry(idB, FlashLoc(0, 26)))
        == Success(Block(idB, 1, FlashLoc(0, 26), Some(file), Some(idA), 5));
    var deleteB := s.DeleteFromRam(idB);
    assert deleteB == Pass;
    assert s.index == map[file := InodeEntry(inodeLoc, Some(idA)), idA := BlockEntry(FlashLoc(0, 0))];

    assert ReadDisk(flash, 0, 0) == Success(a);
    assert FromHashEntry(flash, s.index, HashEntry(idA, FlashLoc(0, 0)))
        == Success(Block(idA, 0, FlashLoc(0, 0), Some(file), None, 2));
    var deleteA := s.DeleteFromRam(idA);
    assert deleteA == Pass;
    assert s.index == map[file := InodeEntry(inodeLoc, None)];
    assert idA !in s.index && idB !in s.index;
  }
}
