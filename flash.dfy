/**
 * The collaborators the block layer consumes but does not implement: raw
 * flash reads and writes (ffs_flash_read, ffs_flash_write) and space
 * reservation (ffs_misc_reserve_space). They are stand-ins with the contracts
 * the block layer relies on, not models of the device or of the allocation
 * policy.
 */
module FfsFlash {
  import opened FfsTypes

  /** What a header-sized read returns from erased flash: all bits set. */
  const ERASED: DiskBlock :=
    DiskBlock(0xffffffff, 0xffffffff, 0xffffffff, 0xffffffff, 0xffffffff, 0xffffffff)

  /**
   * Flash at record granularity. `headers` holds, at the location where it
   * starts, each record written as a header (any record kind, seen through
   * the block-header layout); `payloads` holds the data written at a
   * location. A header read anywhere else returns ERASED, even inside a
   * written header or payload. Device
   * failures are fixed per location: a read or a write there fails with the
   * recorded code.
   */
  datatype Flash = Flash(
    headers: map<FlashLoc, DiskBlock>,
    payloads: map<FlashLoc, seq<uint8>>,
    readFaults: map<FlashLoc, Error>,
    writeFaults: map<FlashLoc, Error>)

  /** ffs_flash_read of one header. */
  function Read(f: Flash, loc: FlashLoc): Result<DiskBlock> {
    if loc in f.readFaults then Failure(f.readFaults[loc])
    else if loc in f.headers then Success(f.headers[loc])
    else Success(ERASED)
  }

  /** ffs_flash_write of one header. */
  function WriteHeader(f: Flash, loc: FlashLoc, d: DiskBlock): Result<Flash> {
    if loc in f.writeFaults then Failure(f.writeFaults[loc])
    else Success(f.(headers := f.headers[loc := d]))
  }

  /** ffs_flash_write of a payload. */
  function WriteData(f: Flash, loc: FlashLoc, data: seq<uint8>): Result<Flash> {
    if loc in f.writeFaults then Failure(f.writeFaults[loc])
    else Success(f.(payloads := f.payloads[loc := data]))
  }

  /** A reserved stretch of `length` bytes starting at `loc`. */
  datatype Region = Region(loc: FlashLoc, length: nat)

  predicate Disjoint(r1: Region, r2: Region) {
    || r1.loc.area != r2.loc.area
    || r1.loc.offset + r1.length <= r2.loc.offset
    || r2.loc.offset + r2.length <= r1.loc.offset
  }

  /**
   * Space placement: the area currently written, its length, the first free
   * offset in it, and every region handed out so far.
   */
  datatype Allocator = Allocator(area: uint8, areaLength: nat, cursor: nat, regions: seq<Region>)

  predicate AllocatorValid(a: Allocator) {
    && a.cursor <= a.areaLength < 0x1_0000_0000
    && forall i :: 0 <= i < |a.regions| ==>
         a.regions[i].loc.area == a.area && a.regions[i].loc.offset + a.regions[i].length <= a.cursor
  }

  /**
   * ffs_misc_reserve_space: hands out a region of exactly `length` bytes
   * that overlaps no region handed out before and lies at or above the
   * cursor of the area being written, or fails with EFull.
   */
  function Reserve(a: Allocator, length: nat): (r: Result<(FlashLoc, Allocator)>)
    requires AllocatorValid(a)
    ensures r.Failure? ==> r.error == EFull
    ensures r.Success? ==>
      && AllocatorValid(r.value.1)
      && r.value.0.offset + length <= r.value.1.areaLength
      && r.value.1.regions == a.regions + [Region(r.value.0, length)]
      && (forall i :: 0 <= i < |a.regions| ==> Disjoint(a.regions[i], Region(r.value.0, length)))
    // the region lies in the area being written, at or above the old cursor
    // (so on flash not written since the erase), and the cursor moves past it
    ensures r.Success? ==>
      && r.value.0.area == a.area && r.value.1.area == a.area
      && r.value.1.areaLength == a.areaLength
      && a.cursor <= r.value.0.offset
      && r.value.1.cursor == r.value.0.offset + length
    ensures r.Success? <==> a.cursor + length <= a.areaLength
  {
    if a.cursor + length > a.areaLength then Failure(EFull)
    else
      var loc := FlashLoc(a.area, a.cursor);
      Success((loc, a.(cursor := a.cursor + length, regions := a.regions + [Region(loc, length)])))
  }

  /** Two reservations in a row never overlap. */
  lemma SuccessiveReservationsDisjoint(a: Allocator, len1: nat, len2: nat)
    requires AllocatorValid(a)
    requires Reserve(a, len1).Success?
    requires Reserve(Reserve(a, len1).value.1, len2).Success?
    ensures Disjoint(Region(Reserve(a, len1).value.0, len1),
                     Region(Reserve(Reserve(a, len1).value.1, len2).value.0, len2))
  {
    var a1 := Reserve(a, len1).value.1;
    assert a1.regions[|a.regions|] == Region(Reserve(a, len1).value.0, len1);
  }
}
