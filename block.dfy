/**
 * The data-block layer proper (src/ffs_block.c): reading and validating a
 * header, building the RAM projection of a block in its unlinked and linked
 * forms, encoding a projection back into a header, and the index update a
 * deletion performs. The two operations that change state, writing a block
 * and deleting it, are methods of FfsStore.BlockStore; this module holds the
 * functions they are specified by and the properties proved about them.
 */
module FfsBlock {
  import opened FfsTypes
  import opened FfsFlash
  import opened FfsIndex

  // ---------------------------------------------------------------------
  // Disk codec
  // ---------------------------------------------------------------------

  /**
   * ffs_block_read_disk: a flash failure is passed through unchanged; a
   * record whose magic is not BLOCK_MAGIC is EUnexp; otherwise the header.
   */
  function ReadDisk(f: Flash, area: uint8, offset: uint32): (r: Result<DiskBlock>)
    ensures var loc := FlashLoc(area, offset);
      && (loc in f.readFaults ==> r == Failure(f.readFaults[loc]))
      && (loc !in f.readFaults ==>
            (r.Success? <==> loc in f.headers && f.headers[loc].magic == BLOCK_MAGIC))
      && (loc !in f.readFaults && r.Failure? ==> r.error == EUnexp)
      && (r.Success? ==> loc in f.headers && r.value == f.headers[loc] && r.value.magic == BLOCK_MAGIC)
  {
    var rd := Read(f, FlashLoc(area, offset));
    if rd.Failure? then Failure(rd.error)
    else if rd.value.magic != BLOCK_MAGIC then Failure(EUnexp)
    else Success(rd.value)
  }

  /** A location never written since its erase does not hold a block. */
  lemma ErasedReadsUnexpected(f: Flash, loc: FlashLoc)
    requires loc !in f.readFaults && loc !in f.headers && loc !in f.payloads
    ensures ReadDisk(f, loc.area, loc.offset) == Failure(EUnexp)
  {
  }

  // ---------------------------------------------------------------------
  // RAM projection
  // ---------------------------------------------------------------------

  /**
   * ffs_block_from_disk_no_ptrs: copies the header's id, seq and length and
   * records where it was read; the inode and predecessor stay unresolved,
   * whatever the header names.
   */
  function FromDiskNoPtrs(d: DiskBlock, area: uint8, offset: uint32): (b: Block)
    ensures b.id == d.id && b.seqNo == d.seqNo && b.dataLen == d.dataLen
    ensures b.loc == FlashLoc(area, offset)
    ensures b.inode == None && b.prev == None
  {
    Block(d.id, d.seqNo, FlashLoc(area, offset), None, None, d.dataLen)
  }

  /**
   * ffs_block_from_disk: the unlinked projection with its inode and, unless
   * the header says ID_NONE, its predecessor resolved through the index.
   * Either one missing is ECorrupt.
   */
  function FromDisk(index: Index, d: DiskBlock, area: uint8, offset: uint32): (r: Result<Block>)
    ensures r.Success? <==>
      FindInode(index, d.inodeId).Some? && (d.prevId == ID_NONE || FindBlock(index, d.prevId).Some?)
    ensures r.Failure? ==> r.error == ECorrupt
    ensures r.Success? ==>
      && r.value == FromDiskNoPtrs(d, area, offset).(inode := r.value.inode, prev := r.value.prev)
      && r.value.inode == Some(d.inodeId)
      && (r.value.prev.None? <==> d.prevId == ID_NONE)
      && (r.value.prev.Some? ==> r.value.prev.value == d.prevId)
  {
    var b := FromDiskNoPtrs(d, area, offset);
    var inode := FindInode(index, d.inodeId);
    if inode.None? then Failure(ECorrupt)
    else if d.prevId == ID_NONE then Success(b.(inode := inode))
    else
      var prev := FindBlock(index, d.prevId);
      if prev.None? then Failure(ECorrupt)
      else Success(b.(inode := inode, prev := prev))
  }

  /**
   * ffs_block_to_disk: the header that describes a projection. The caller
   * must supply the owning inode (an assertion in the source).
   */
  function ToDisk(b: Block): (d: DiskBlock)
    requires b.inode.Some?
    ensures d.magic == BLOCK_MAGIC
    ensures d.id == b.id && d.seqNo == b.seqNo && d.dataLen == b.dataLen
    ensures d.inodeId == b.inode.value
    ensures b.prev.None? ==> d.prevId == ID_NONE
    ensures b.prev.Some? ==> d.prevId == b.prev.value
    ensures b.prev.Some? && IsBlockId(b.prev.value) ==> d.prevId != ID_NONE
  {
    DiskBlock(
      BLOCK_MAGIC, b.id, b.seqNo, b.inode.value,
      if b.prev.None? then ID_NONE else b.prev.value,
      b.dataLen)
  }

  /**
   * ffs_block_from_hash_entry_no_ptrs: reads the header at the entry's
   * location and builds the unlinked projection; only the read can fail.
   */
  function FromHashEntryNoPtrs(f: Flash, e: HashEntry): (r: Result<Block>)
    requires IsBlockId(e.id)
    ensures var h := ReadDisk(f, e.loc.area, e.loc.offset);
      && (h.Failure? ==> r == Failure(h.error))
      && (h.Success? ==> r == Success(FromDiskNoPtrs(h.value, e.loc.area, e.loc.offset)))
  {
    var h := ReadDisk(f, e.loc.area, e.loc.offset);
    if h.Failure? then Failure(h.error)
    else Success(FromDiskNoPtrs(h.value, e.loc.area, e.loc.offset))
  }

  /**
   * ffs_block_from_hash_entry: reads the header at the entry's location and
   * builds the linked projection; a read error comes first, then ECorrupt
   * from resolution.
   */
  function FromHashEntry(f: Flash, index: Index, e: HashEntry): (r: Result<Block>)
    requires IsBlockId(e.id)
    ensures var h := ReadDisk(f, e.loc.area, e.loc.offset);
      && (h.Failure? ==> r == Failure(h.error))
      && (h.Success? ==> r == FromDisk(index, h.value, e.loc.area, e.loc.offset))
  {
    var h := ReadDisk(f, e.loc.area, e.loc.offset);
    if h.Failure? then Failure(h.error)
    else FromDisk(index, h.value, e.loc.area, e.loc.offset)
  }

  // ---------------------------------------------------------------------
  // Round trips between the header and the projection
  // ---------------------------------------------------------------------

  /**
   * Encoding a projection whose references are indexed, then decoding it in
   * linked form at the same location, gives the projection back.
   */
  lemma EncodeThenDecode(index: Index, b: Block)
    requires IndexConsistent(index)
    requires b.inode.Some? && FindInode(index, b.inode.value).Some?
    requires b.prev.Some? ==> FindBlock(index, b.prev.value).Some?
    ensures ToDisk(b).magic == BLOCK_MAGIC
    ensures FromDisk(index, ToDisk(b), b.loc.area, b.loc.offset) == Success(b)
  {
    if b.prev.Some? {
      assert IsBlockId(b.prev.value);
    }
  }

  /** Decoding a valid header in linked form, then encoding, gives the header back. */
  lemma DecodeThenEncode(index: Index, d: DiskBlock, area: uint8, offset: uint32)
    requires d.magic == BLOCK_MAGIC
    requires FromDisk(index, d, area, offset).Success?
    ensures ToDisk(FromDisk(index, d, area, offset).value) == d
  {
  }

  /**
   * A block relocated by writing ToDisk(b) at a fresh location reads back,
   * through its index entry, as the same projection at the new location.
   */
  lemma RelocateRoundTrip(f: Flash, index: Index, b: Block, loc: FlashLoc)
    requires IndexConsistent(index) && IsBlockId(b.id)
    requires b.inode.Some? && FindInode(index, b.inode.value).Some?
    requires b.prev.Some? ==> FindBlock(index, b.prev.value).Some?
    requires loc !in f.readFaults
    ensures FromHashEntry(f.(headers := f.headers[loc := ToDisk(b)]), index, HashEntry(b.id, loc))
            == Success(b.(loc := loc))
  {
    var moved := b.(loc := loc);
    EncodeThenDecode(index, moved);
    assert ToDisk(moved) == ToDisk(b);
  }

  /** Re-encoding the projection read through an index entry reproduces the stored header. */
  lemma StoredHeaderReencodes(f: Flash, index: Index, e: HashEntry)
    requires IsBlockId(e.id)
    requires FromHashEntry(f, index, e).Success?
    ensures e.loc in f.headers && ToDisk(FromHashEntry(f, index, e).value) == f.headers[e.loc]
  {
    var h := ReadDisk(f, e.loc.area, e.loc.offset);
    DecodeThenEncode(index, h.value, e.loc.area, e.loc.offset);
  }

  /**
   * The linked projection is the unlinked one with its references filled
   * in: whenever linked construction succeeds, unlinked construction does
   * too and agrees on every other field.
   */
  lemma LinkedExtendsUnlinked(f: Flash, index: Index, e: HashEntry)
    requires IsBlockId(e.id)
    requires FromHashEntry(f, index, e).Success?
    ensures FromHashEntryNoPtrs(f, e).Success?
    ensures var b := FromHashEntry(f, index, e).value;
      b == FromHashEntryNoPtrs(f, e).value.(inode := b.inode, prev := b.prev)
  {
  }

  // ---------------------------------------------------------------------
  // Chains and tails
  // ---------------------------------------------------------------------

  /** The header of an indexed block, as ReadDisk returns it. */
  function HeaderOf(f: Flash, index: Index, bid: uint32): Result<DiskBlock>
    requires bid in index && index[bid].BlockEntry?
  {
    ReadDisk(f, index[bid].blockLoc.area, index[bid].blockLoc.offset)
  }

  /** Block `bid` is indexed and its header on flash names inode `iid` as its owner. */
  predicate BelongsTo(f: Flash, index: Index, bid: uint32, iid: uint32) {
    && bid in index && index[bid].BlockEntry?
    && HeaderOf(f, index, bid).Success?
    && HeaderOf(f, index, bid).value.inodeId == iid
  }

  /** Every inode's tail, when present, is an indexed block of that inode. */
  predicate TailsValid(f: Flash, index: Index) {
    forall iid :: iid in index && index[iid].InodeEntry? && index[iid].lastBlock.Some? ==>
      BelongsTo(f, index, index[iid].lastBlock.value, iid)
  }

  /** The predecessor a block's header names, if any, is another indexed block of the same inode. */
  predicate PrevLinked(f: Flash, index: Index, bid: uint32)
    requires bid in index && index[bid].BlockEntry?
  {
    var h := HeaderOf(f, index, bid);
    h.Success? && h.value.prevId != ID_NONE ==>
      h.value.prevId != bid && BelongsTo(f, index, h.value.prevId, h.value.inodeId)
  }

  /** Every indexed block has a readable header, an indexed owner, and a linked predecessor. */
  predicate ChainsLinked(f: Flash, index: Index) {
    forall bid :: bid in index && index[bid].BlockEntry? ==>
      && HeaderOf(f, index, bid).Success?
      && FindInode(index, HeaderOf(f, index, bid).value.inodeId).Some?
      && PrevLinked(f, index, bid)
  }

  /**
   * When the chains are linked, every indexed block resolves in linked form,
   * and so does its predecessor, which has the same owner: following prev
   * from any block never hits a missing link.
   */
  lemma PredecessorResolves(f: Flash, index: Index, bid: uint32)
    requires IndexConsistent(index) && ChainsLinked(f, index)
    requires bid in index && index[bid].BlockEntry?
    ensures IsBlockId(bid)
    ensures FromHashEntry(f, index, HashEntry(bid, index[bid].blockLoc)).Success?
    ensures var b := FromHashEntry(f, index, HashEntry(bid, index[bid].blockLoc)).value;
      b.prev.Some? ==>
        && b.prev.value in index && index[b.prev.value].BlockEntry?
        && IsBlockId(b.prev.value)
        && var p := FromHashEntry(f, index, HashEntry(b.prev.value, index[b.prev.value].blockLoc));
           p.Success? && p.value.inode == b.inode
  {
    var h := HeaderOf(f, index, bid).value;
    if h.prevId != ID_NONE {
      var pid := h.prevId;
      assert BelongsTo(f, index, pid, h.inodeId);
      var ph := HeaderOf(f, index, pid).value;
      assert FindInode(index, ph.inodeId).Some?;
      assert PrevLinked(f, index, pid);
    }
  }

  /**
   * The block reached by following prev ids k times from `bid`, or None when
   * the chain ends earlier (at a head, or at a block that is not indexed or
   * whose header cannot be read).
   */
  function Ancestor(f: Flash, index: Index, bid: uint32, k: nat): Option<uint32>
    decreases k
  {
    if k == 0 then Some(bid)
    else if bid in index && index[bid].BlockEntry? && HeaderOf(f, index, bid).Success?
            && HeaderOf(f, index, bid).value.prevId != ID_NONE
    then Ancestor(f, index, HeaderOf(f, index, bid).value.prevId, k - 1)
    else None
  }

  /**
   * Chain resolution: when the chains are linked, every block reached by
   * following prev from a block of inode `iid` (for instance from its tail)
   * is an indexed block of `iid`, and resolves in linked form with `iid` as
   * its owner.
   */
  lemma {:induction false} AncestorsResolve(f: Flash, index: Index, bid: uint32, iid: uint32, k: nat)
    requires IndexConsistent(index) && ChainsLinked(f, index)
    requires BelongsTo(f, index, bid, iid)
    requires Ancestor(f, index, bid, k).Some?
    ensures var a := Ancestor(f, index, bid, k).value;
      && BelongsTo(f, index, a, iid)
      && IsBlockId(a)
      && FromHashEntry(f, index, HashEntry(a, index[a].blockLoc)).Success?
      && FromHashEntry(f, index, HashEntry(a, index[a].blockLoc)).value.inode == Some(iid)
    decreases k
  {
    if k == 0 {
      PredecessorResolves(f, index, bid);
    } else {
      var h := HeaderOf(f, index, bid).value;
      assert PrevLinked(f, index, bid);
      AncestorsResolve(f, index, h.prevId, iid, k - 1);
    }
  }

  /** `r` holds the same block entries as `index`, except that `gone` may be missing. */
  ghost predicate SameBlocksExcept(index: Index, r: Index, gone: uint32) {
    forall id :: id != gone ==>
      && ((id in r && r[id].BlockEntry?) <==> (id in index && index[id].BlockEntry?))
      && (id in r && r[id].BlockEntry? ==> r[id] == index[id])
  }

  /** Walking a chain that never visits `gone` does not notice that `gone` was removed. */
  lemma {:induction false} AncestorIgnoresRemoved(f: Flash, index: Index, r: Index, gone: uint32, x: uint32, k: nat)
    requires SameBlocksExcept(index, r, gone)
    requires forall j :: 0 <= j < k ==> Ancestor(f, index, x, j) != Some(gone)
    ensures Ancestor(f, r, x, k) == Ancestor(f, index, x, k)
    decreases k
  {
    if k > 0 {
      assert Ancestor(f, index, x, 0) != Some(gone);
      if x in index && index[x].BlockEntry? && HeaderOf(f, index, x).Success?
         && HeaderOf(f, index, x).value.prevId != ID_NONE {
        var p := HeaderOf(f, index, x).value.prevId;
        assert HeaderOf(f, r, x) == HeaderOf(f, index, x);
        forall j | 0 <= j < k - 1
          ensures Ancestor(f, index, p, j) != Some(gone)
        {
          assert Ancestor(f, index, x, j + 1) == Ancestor(f, index, p, j);
        }
        AncestorIgnoresRemoved(f, index, r, gone, p, k - 1);
      }
    }
  }

  /**
   * The index after ffs_block_delete_from_ram has resolved block `b`: if
   * the owning inode's tail is this block, the tail moves to the block's
   * predecessor (possibly none); then the block's entry is removed.
   */
  function DeleteFromIndex(index: Index, blockId: uint32, b: Block): (r: Index)
    requires blockId in index && index[blockId].BlockEntry?
    requires b.inode.Some? && b.inode.value in index && index[b.inode.value].InodeEntry?
    ensures r.Keys == index.Keys - {blockId}
    ensures forall id :: id in r && id != b.inode.value ==> r[id] == index[id]
    ensures b.inode.value in r
    ensures index[b.inode.value].lastBlock == Some(blockId) ==>
              r[b.inode.value] == index[b.inode.value].(lastBlock := b.prev)
    ensures index[b.inode.value].lastBlock != Some(blockId) ==>
              r[b.inode.value] == index[b.inode.value]
  {
    var iid := b.inode.value;
    var repaired :=
      if index[iid].lastBlock == Some(blockId) then index[iid := index[iid].(lastBlock := b.prev)]
      else index;
    repaired - {blockId}
  }

  /**
   * Deleting a block whose predecessor is another block of its inode keeps
   * every tail pointing at an indexed block of its own inode; in particular
   * no tail is left naming the deleted block.
   */
  lemma DeleteKeepsTailsValid(f: Flash, index: Index, blockId: uint32)
    requires blockId in index && index[blockId].BlockEntry? && IsBlockId(blockId)
    requires TailsValid(f, index)
    requires PrevLinked(f, index, blockId)
    requires FromHashEntry(f, index, HashEntry(blockId, index[blockId].blockLoc)).Success?
    ensures TailsValid(f, DeleteFromIndex(index, blockId,
              FromHashEntry(f, index, HashEntry(blockId, index[blockId].blockLoc)).value))
  {
    var b := FromHashEntry(f, index, HashEntry(blockId, index[blockId].blockLoc)).value;
    var h := HeaderOf(f, index, blockId).value;
    var owner := b.inode.value;
    var r := DeleteFromIndex(index, blockId, b);
    forall iid | iid in r && r[iid].InodeEntry? && r[iid].lastBlock.Some?
      ensures BelongsTo(f, r, r[iid].lastBlock.value, iid)
    {
      var t := r[iid].lastBlock.value;
      if iid == owner && index[owner].lastBlock == Some(blockId) {
        // the tail moved to the predecessor
        assert b.prev == Some(h.prevId);
        assert BelongsTo(f, index, t, h.inodeId);
      } else {
        assert r[iid] == index[iid];
        assert BelongsTo(f, index, t, iid);
        assert t != blockId;
      }
      assert r[t] == index[t];
    }
  }

  /**
   * Deleting a block leaves the chain behind it as it was: walking k steps
   * from the block's predecessor in the new index gives what walking k + 1
   * steps from the block gave before, provided the walk does not come back
   * to the deleted block. Deleting the tail of B1 <- B2 <- B3 thus leaves the
   * tail at B2 with B1 still behind it.
   */
  lemma {:induction false} DeleteKeepsRestOfChain(f: Flash, index: Index, blockId: uint32, k: nat)
    requires blockId in index && index[blockId].BlockEntry? && IsBlockId(blockId)
    requires FromHashEntry(f, index, HashEntry(blockId, index[blockId].blockLoc)).Success?
    requires forall j :: 1 <= j <= k ==> Ancestor(f, index, blockId, j) != Some(blockId)
    ensures var b := FromHashEntry(f, index, HashEntry(blockId, index[blockId].blockLoc)).value;
      b.prev.Some? ==>
        Ancestor(f, DeleteFromIndex(index, blockId, b), b.prev.value, k) == Ancestor(f, index, blockId, k + 1)
  {
    var b := FromHashEntry(f, index, HashEntry(blockId, index[blockId].blockLoc)).value;
    if b.prev.Some? {
      var p := b.prev.value;
      var r := DeleteFromIndex(index, blockId, b);
      assert SameBlocksExcept(index, r, blockId);
      forall j | 0 <= j < k
        ensures Ancestor(f, index, p, j) != Some(blockId)
      {
        assert Ancestor(f, index, blockId, j + 1) == Ancestor(f, index, p, j);
      }
      AncestorIgnoresRemoved(f, index, r, blockId, p, k);
    }
  }

  /**
   * Without PrevLinked the repair can go wrong: a header naming its own id
   * as predecessor resolves, and deleting that block leaves its inode's tail
   * naming the entry just removed.
   */
  lemma SelfLinkedBlockLeavesDanglingTail()
    ensures var loc := FlashLoc(0, 0);
      var iid: uint32 := 1;
      var bid: uint32 := ID_BLOCK_MIN;
      var f := Flash(map[loc := DiskBlock(BLOCK_MAGIC, bid, 0, iid, bid, 0)], map[], map[], map[]);
      var index := map[iid := InodeEntry(FlashLoc(0, 100), Some(bid)), bid := BlockEntry(loc)];
      var res := FromHashEntry(f, index, HashEntry(bid, loc));
      && TailsValid(f, index)
      && res.Success?
      && var r := DeleteFromIndex(index, bid, res.value);
         r[iid].lastBlock == Some(bid) && bid !in r && !TailsValid(f, r)
  {
    var loc := FlashLoc(0, 0);
    var iid: uint32 := 1;
    var bid: uint32 := ID_BLOCK_MIN;
    var f := Flash(map[loc := DiskBlock(BLOCK_MAGIC, bid, 0, iid, bid, 0)], map[], map[], map[]);
    var index := map[iid := InodeEntry(FlashLoc(0, 100), Some(bid)), bid := BlockEntry(loc)];
    assert HeaderOf(f, index, bid) == Success(f.headers[loc]);
    var res := FromHashEntry(f, index, HashEntry(bid, loc));
    assert res == Success(Block(bid, 0, loc, Some(iid), Some(bid), 0));
    var r := DeleteFromIndex(index, bid, res.value);
    assert r[iid].lastBlock == Some(bid);
  }

  /**
   * Without PrevLinked the repair can also hand a tail to another file: a
   * header whose prev id names a block of a different inode resolves, and
   * deleting it makes that foreign block the tail of its own inode.
   */
  lemma ForeignPrevMovesTailToOtherInode()
    ensures var locB := FlashLoc(0, 0);
      var locC := FlashLoc(0, 40);
      var file1: uint32 := 1;
      var file2: uint32 := 2;
      var idB: uint32 := ID_BLOCK_MIN;
      var idC: uint32 := ID_BLOCK_MIN + 1;
      var f := Flash(map[locB := DiskBlock(BLOCK_MAGIC, idB, 0, file1, idC, 0),
                         locC := DiskBlock(BLOCK_MAGIC, idC, 0, file2, ID_NONE, 0)], map[], map[], map[]);
      var index := map[file1 := InodeEntry(FlashLoc(1, 0), Some(idB)),
                       file2 := InodeEntry(FlashLoc(1, 40), Some(idC)),
                       idB := BlockEntry(locB), idC := BlockEntry(locC)];
      var res := FromHashEntry(f, index, HashEntry(idB, locB));
      && TailsValid(f, index)
      && res.Success?
      && var r := DeleteFromIndex(index, idB, res.value);
         r[file1].lastBlock == Some(idC) && !BelongsTo(f, r, idC, file1) && !TailsValid(f, r)
  {
    var locB := FlashLoc(0, 0);
    var locC := FlashLoc(0, 40);
    var file1: uint32 := 1;
    var file2: uint32 := 2;
    var idB: uint32 := ID_BLOCK_MIN;
    var idC: uint32 := ID_BLOCK_MIN + 1;
    var f := Flash(map[locB := DiskBlock(BLOCK_MAGIC, idB, 0, file1, idC, 0),
                       locC := DiskBlock(BLOCK_MAGIC, idC, 0, file2, ID_NONE, 0)], map[], map[], map[]);
    var index := map[file1 := InodeEntry(FlashLoc(1, 0), Some(idB)),
                     file2 := InodeEntry(FlashLoc(1, 40), Some(idC)),
                     idB := BlockEntry(locB), idC := BlockEntry(locC)];
    assert HeaderOf(f, index, idB) == Success(f.headers[locB]);
    assert HeaderOf(f, index, idC) == Success(f.headers[locC]);
    assert BelongsTo(f, index, idB, file1) && BelongsTo(f, index, idC, file2);
    var res := FromHashEntry(f, index, HashEntry(idB, locB));
    assert res == Success(Block(idB, 0, locB, Some(file1), Some(idC), 0));
    var r := DeleteFromIndex(index, idB, res.value);
    assert r[file1].lastBlock == Some(idC);
    assert r[idC] == index[idC];
    assert HeaderOf(f, r, idC) == Success(f.headers[locC]);
  }
}
