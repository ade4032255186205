/** The memory-map range checker.

    The source walks a cursor over unordered, possibly overlapping descriptors
    with 64-bit arithmetic.  Its meaning is given per byte: a range is
    accessible when every one of its bytes lies in exactly one nonempty
    descriptor, and that descriptor permits the access. */
module MemoryMap {
  import opened Basics

  const EFI_PAGE_SIZE: int := 4096
  const DESCRIPTOR_BYTES: int := 40  // the size of EFI_MEMORY_DESCRIPTOR

  datatype MemoryType =
    | ReservedMemory | LoaderCode | LoaderData | BootServicesCode | BootServicesData
    | RuntimeServicesCode | RuntimeServicesData | ConventionalMemory | UnusableMemory
    | AcpiReclaimMemory | AcpiMemoryNvs | MemoryMappedIo | MemoryMappedIoPortSpace
    | PalCode | PersistentMemory | OtherMemory

  datatype Descriptor = Descriptor(kind: MemoryType, start: u64, pages: u64,
                                   readProtected: bool, readOnly: bool, writeProtected: bool)

  /** A captured map.  The sizes are the ones firmware reported. */
  datatype Snapshot = Snapshot(present: bool, mapSize: nat, descriptorSize: nat, regions: seq<Descriptor>)
  {
    predicate WellFormed() {
      present && descriptorSize >= DESCRIPTOR_BYTES && mapSize != 0 && mapSize % descriptorSize == 0
    }

    predicate Valid() {
      WellFormed() ==> |regions| == mapSize / descriptorSize
    }
  }

  // --------------------------------------------------------------- the meaning

  predicate MayBeRead(kind: MemoryType) {
    !kind.UnusableMemory? && !kind.MemoryMappedIo? && !kind.MemoryMappedIoPortSpace? &&
    !kind.PalCode? && !kind.OtherMemory?
  }

  predicate Permits(d: Descriptor, writable: bool) {
    && MayBeRead(d.kind)
    && !d.readProtected
    && (writable ==>
          && !d.readOnly && !d.writeProtected
          && !d.kind.LoaderCode? && !d.kind.BootServicesCode?
          && !d.kind.RuntimeServicesCode? && !d.kind.PersistentMemory?)
  }

  /** The whole permission table: eleven readable types, seven of them writable, and
      the attributes that forbid each access. */
  lemma PermissionTable(d: Descriptor)
    ensures Permits(d, false) <==>
      && !d.readProtected
      && d.kind in {ReservedMemory, LoaderCode, LoaderData, BootServicesCode, BootServicesData, RuntimeServicesCode,
                    RuntimeServicesData, ConventionalMemory, AcpiReclaimMemory, AcpiMemoryNvs, PersistentMemory}
    ensures Permits(d, true) <==>
      && !d.readProtected && !d.readOnly && !d.writeProtected
      && d.kind in {ReservedMemory, LoaderData, BootServicesData, RuntimeServicesData, ConventionalMemory,
                    AcpiReclaimMemory, AcpiMemoryNvs}
  {
  }

  /** The descriptor's byte range fits the 64-bit address space. */
  predicate Fits(d: Descriptor) {
    && d.pages <= MAX_UINT64 / EFI_PAGE_SIZE
    && (d.pages == 0 || d.start + d.pages * EFI_PAGE_SIZE - 1 <= MAX_UINT64)
  }

  predicate Covers(d: Descriptor, address: int) {
    d.start <= address < d.start + d.pages * EFI_PAGE_SIZE
  }

  ghost predicate AllFit(regions: seq<Descriptor>) {
    forall i :: 0 <= i < |regions| ==> Fits(regions[i])
  }

  /** The byte lies in exactly one descriptor, and that one permits the access. */
  ghost predicate Accessible(regions: seq<Descriptor>, writable: bool, address: int) {
    exists i :: 0 <= i < |regions| && OnlyCover(regions, address, i) && Permits(regions[i], writable)
  }

  ghost predicate OnlyCover(regions: seq<Descriptor>, address: int, i: int)
    requires 0 <= i < |regions|
  {
    Covers(regions[i], address) && forall j :: 0 <= j < |regions| && j != i ==> !Covers(regions[j], address)
  }

  ghost predicate AllAccessible(regions: seq<Descriptor>, writable: bool, from: int, to: int) {
    forall address :: from <= address < to ==> Accessible(regions, writable, address)
  }

  ghost predicate Granted(s: Snapshot, address: u64, length: u64, writable: bool) {
    && s.WellFormed()
    && length != 0
    && address + length - 1 <= MAX_UINT64
    && AllFit(s.regions)
    && AllAccessible(s.regions, writable, address, address + length)
  }

  /** The extent of accessible bytes from the address on: as long as possible,
      and saturated one below 2^64. */
  ghost predicate IsExtent(regions: seq<Descriptor>, writable: bool, address: u64, extent: u64) {
    && address + extent <= MAX_UINT64 + 1
    && AllAccessible(regions, writable, address, address + extent)
    && (|| extent == MAX_UINT64
        || address + extent == MAX_UINT64 + 1
        || !Accessible(regions, writable, address + extent))
  }

  // ------------------------------------------------------------ the cursor walk

  /** One pass over the descriptors for a fixed cursor. */
  ghost predicate Scanned(regions: seq<Descriptor>, n: int, cursor: u64, covering: int, overlap: bool, nextStart: u64)
    requires 0 <= n <= |regions|
  {
    && (forall i :: 0 <= i < n ==> Fits(regions[i]))
    && (covering == -1 ==> !overlap && forall i :: 0 <= i < n ==> !Covers(regions[i], cursor))
    && (covering != -1 ==> 0 <= covering < n && Covers(regions[covering], cursor))
    && (covering != -1 && !overlap ==> forall i :: 0 <= i < n && i != covering ==> !Covers(regions[i], cursor))
    && (covering != -1 && overlap ==> exists i :: 0 <= i < n && i != covering && Covers(regions[i], cursor))
    && (forall i :: 0 <= i < n && regions[i].pages != 0 && regions[i].start > cursor ==> nextStart <= regions[i].start)
    && (nextStart != MAX_UINT64 ==>
          nextStart > cursor && exists i :: 0 <= i < n && regions[i].pages != 0 && regions[i].start == nextStart)
  }

  method Scan(regions: seq<Descriptor>, cursor: u64)
    returns (ok: bool, covering: int, overlap: bool, coveredLast: u64, nextStart: u64)
    ensures ok <==> AllFit(regions)
    ensures ok ==> Scanned(regions, |regions|, cursor, covering, overlap, nextStart)
    ensures ok && covering != -1 ==>
      coveredLast == regions[covering].start + regions[covering].pages * EFI_PAGE_SIZE - 1
  {
    ok, covering, overlap, coveredLast, nextStart := true, -1, false, 0, MAX_UINT64;
    for index := 0 to |regions|
      invariant ok && Scanned(regions, index, cursor, covering, overlap, nextStart)
      invariant covering != -1 ==> coveredLast == regions[covering].start + regions[covering].pages * EFI_PAGE_SIZE - 1
    {
      var d := regions[index];
      if d.pages > MAX_UINT64 / EFI_PAGE_SIZE {
        assert !Fits(d);
        ok := false;
        return;
      }
      var bytes := d.pages * EFI_PAGE_SIZE;
      if bytes != 0 {
        if d.start > MAX_UINT64 - (bytes - 1) {
          assert !Fits(d);
          ok := false;
          return;
        }
        var last := d.start + bytes - 1;
        if cursor >= d.start && cursor <= last {
          if covering != -1 {
            assert Covers(regions[covering], cursor);
            overlap := true;
          }
          covering, coveredLast := index, last;
        } else if d.start > cursor && d.start < nextStart {
          nextStart := d.start;
        }
      }
    }
  }

  /** No byte between the cursor and the next descriptor start changes hands. */
  lemma StretchAccessible(regions: seq<Descriptor>, writable: bool, cursor: u64, covering: int, nextStart: u64,
                          last: u64)
    requires Scanned(regions, |regions|, cursor, covering, false, nextStart) && covering != -1
    requires Permits(regions[covering], writable)
    requires cursor <= last < regions[covering].start + regions[covering].pages * EFI_PAGE_SIZE
    requires nextStart != MAX_UINT64 ==> last < nextStart
    ensures AllAccessible(regions, writable, cursor, last + 1)
  {
    forall address | cursor <= address < last + 1 ensures Accessible(regions, writable, address) {
      forall j | 0 <= j < |regions| && j != covering ensures !Covers(regions[j], address) {
        assert !Covers(regions[j], cursor);
        if regions[j].start > cursor && regions[j].pages != 0 {
          assert Fits(regions[j]);
          assert nextStart <= regions[j].start;
        }
      }
      assert OnlyCover(regions, address, covering);
    }
  }

  lemma CursorBlocked(regions: seq<Descriptor>, writable: bool, cursor: u64, covering: int, overlap: bool,
                      nextStart: u64)
    requires Scanned(regions, |regions|, cursor, covering, overlap, nextStart)
    requires overlap || covering == -1 || !Permits(regions[covering], writable)
    ensures !Accessible(regions, writable, cursor)
  {
    forall i | 0 <= i < |regions| ensures !(OnlyCover(regions, cursor, i) && Permits(regions[i], writable)) {
      assert covering == i || covering == -1 || Covers(regions[covering], cursor);
    }
  }

  /** The checker agrees with the per-byte meaning, whether or not the extent is
      requested; the extent of a valid query is exact. */
  method RangeAccessible(s: Snapshot, address: u64, length: u64, wantExtent: bool, writable: bool)
    returns (granted: bool, extent: u64)
    requires s.Valid()
    ensures granted <==> Granted(s, address, length, writable)
    ensures wantExtent && s.WellFormed() && length != 0 && address + length - 1 <= MAX_UINT64 && AllFit(s.regions) ==>
              IsExtent(s.regions, writable, address, extent)
    ensures !(s.WellFormed() && length != 0 && address + length - 1 <= MAX_UINT64 && AllFit(s.regions)) ==> extent == 0
  {
    extent := 0;
    if !s.WellFormed() || length == 0 || address > MAX_UINT64 - (length - 1) {
      return false, 0;
    }
    var cursor: u64 := address;
    var available: u64 := 0;
    while true
      invariant address <= cursor
      invariant available == cursor - address
      invariant cursor > address ==> AllFit(s.regions)
      invariant AllAccessible(s.regions, writable, address, cursor)
      invariant !wantExtent && cursor > address ==> available < length
      decreases MAX_UINT64 - cursor
    {
      var ok, covering, overlap, coveredLast, nextStart := Scan(s.regions, cursor);
      if !ok {
        return false, 0;
      }
      if overlap || covering == -1 || !Permits(s.regions[covering], writable) {
        CursorBlocked(s.regions, writable, cursor, covering, overlap, nextStart);
        break;
      }
      if nextStart != MAX_UINT64 && nextStart <= coveredLast {
        coveredLast := nextStart - 1;
      }
      StretchAccessible(s.regions, writable, cursor, covering, nextStart, coveredLast);
      assert AllAccessible(s.regions, writable, address, coveredLast + 1);
      available := coveredLast - address;
      available := if available >= MAX_UINT64 then MAX_UINT64 else available + 1;
      if (!wantExtent && available >= length) || coveredLast == MAX_UINT64 {
        assert available >= length ==> AllAccessible(s.regions, writable, address, address + length);
        assert coveredLast == MAX_UINT64 ==> available >= length;
        return available >= length, available;
      }
      cursor := coveredLast + 1;
    }
    extent := available;
    granted := available >= length;
    if !granted {
      assert !Accessible(s.regions, writable, address + available);
      assert address <= address + available < address + length;
    }
  }

  // ---------------------------------------------------------- laws of the checker

  /** Order-free form of the per-byte meaning. */
  ghost predicate SoleOwner(owners: multiset<Descriptor>, writable: bool, address: int, d: Descriptor) {
    && owners[d] == 1
    && Covers(d, address)
    && Permits(d, writable)
    && forall e :: e in owners && e != d ==> !Covers(e, address)
  }

  lemma CountOnce(regions: seq<Descriptor>, i: int)
    requires 0 <= i < |regions|
    ensures multiset(regions)[regions[i]] == 1 <==>
            forall j :: 0 <= j < |regions| && j != i ==> regions[j] != regions[i]
  {
    var before, after := regions[..i], regions[i + 1..];
    assert regions == before + [regions[i]] + after;
    assert multiset(regions) == multiset(before) + multiset{regions[i]} + multiset(after);
    if forall j :: 0 <= j < |regions| && j != i ==> regions[j] != regions[i] {
      assert regions[i] !in before && regions[i] !in after;
    } else {
      var j :| 0 <= j < |regions| && j != i && regions[j] == regions[i];
      if j < i {
        assert before[j] == regions[i];
      } else {
        assert after[j - i - 1] == regions[i];
      }
    }
  }

  lemma AccessibleIsOrderFree(regions: seq<Descriptor>, writable: bool, address: int)
    ensures Accessible(regions, writable, address) <==> exists d :: SoleOwner(multiset(regions), writable, address, d)
  {
    if Accessible(regions, writable, address) {
      var i :| 0 <= i < |regions| && OnlyCover(regions, address, i) && Permits(regions[i], writable);
      CountOnce(regions, i);
      forall e | e in multiset(regions) && e != regions[i] ensures !Covers(e, address) {
        assert e in regions;
      }
      assert SoleOwner(multiset(regions), writable, address, regions[i]);
    }
    if d :| SoleOwner(multiset(regions), writable, address, d) {
      assert d in regions;
      var i :| 0 <= i < |regions| && regions[i] == d;
      CountOnce(regions, i);
      forall j | 0 <= j < |regions| && j != i ensures !Covers(regions[j], address) {
        assert regions[j] in multiset(regions) && regions[j] != d;
      }
      assert OnlyCover(regions, address, i);
    }
  }

  /** Neither the answer nor the extent depends on the order of the descriptors. */
  lemma OrderIndependent(s: Snapshot, t: Snapshot, address: u64, length: u64, writable: bool)
    requires multiset(s.regions) == multiset(t.regions) && s.WellFormed() == t.WellFormed()
    ensures Granted(s, address, length, writable) == Granted(t, address, length, writable)
    ensures AllFit(s.regions) == AllFit(t.regions)
    ensures forall e: u64 :: IsExtent(s.regions, writable, address, e) <==> IsExtent(t.regions, writable, address, e)
  {
    forall b: int ensures Accessible(s.regions, writable, b) == Accessible(t.regions, writable, b) {
      AccessibleIsOrderFree(s.regions, writable, b);
      AccessibleIsOrderFree(t.regions, writable, b);
    }
    if AllFit(s.regions) {
      FitsIsOrderFree(s.regions, t.regions);
    }
    if AllFit(t.regions) {
      FitsIsOrderFree(t.regions, s.regions);
    }
  }

  lemma FitsIsOrderFree(regions: seq<Descriptor>, other: seq<Descriptor>)
    requires multiset(regions) == multiset(other) && AllFit(regions)
    ensures AllFit(other)
  {
    forall i | 0 <= i < |other| ensures Fits(other[i]) {
      assert other[i] in multiset(regions);
      assert other[i] in regions;
    }
  }

  /** The extent is unique, so it too depends on nothing but the bytes. */
  lemma ExtentIsUnique(regions: seq<Descriptor>, writable: bool, address: u64, e: u64, f: u64)
    requires IsExtent(regions, writable, address, e) && IsExtent(regions, writable, address, f)
    ensures e == f
  {
    assert e < f ==> Accessible(regions, writable, address + e);
    assert f < e ==> Accessible(regions, writable, address + f);
  }

  /** Writable implies readable. */
  lemma WritableIsReadable(s: Snapshot, address: u64, length: u64)
    requires Granted(s, address, length, true)
    ensures Granted(s, address, length, false)
  {
    forall b | address <= b < address + length ensures Accessible(s.regions, false, b) {
      assert Accessible(s.regions, true, b);
      var i :| 0 <= i < |s.regions| && OnlyCover(s.regions, b, i) && Permits(s.regions[i], true);
      assert Permits(s.regions[i], false);
    }
  }
}
