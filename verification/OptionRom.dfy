/** The option-ROM chain parser against a declarative reading of the ROM layout
    (section 6.3.1 of the PCI Local Bus Specification 2.2, and the PCI 3.0
    additions to the PCI data structure). */
module OptionRom {
  import opened Basics

  const BLOCK: nat := 512
  const HEADER_BYTES: nat := 0x1A
  const PCIR_BYTES: nat := 0x18
  const PCIR3_BYTES: nat := 0x1C
  const CONFIG_HEADER_BYTES: nat := 42
  const CONFIG_NAME_BYTES: nat := 40
  const CODE_PCAT: nat := 0
  const CODE_EFI: nat := 3

  type Rom = seq<u8>

  /** A little-endian 16-bit field. */
  function Word(rom: Rom, at: nat): (w: nat)
    requires at + 2 <= |rom|
    ensures w < 0x1_0000
  {
    rom[at] as int + 256 * (rom[at + 1] as int)
  }

  // ------------------------------------------------------------ header and PCIR

  /** Where the image's PCI data structure starts. */
  function Pcir(rom: Rom, at: nat): (p: nat)
    requires at + HEADER_BYTES <= |rom|
    ensures p >= at
  {
    at + Word(rom, at + 0x18)
  }

  predicate HeaderOk(rom: Rom, at: nat) {
    && at + HEADER_BYTES <= |rom|
    && Word(rom, at) == 0xAA55
    && Pcir(rom, at) >= at + HEADER_BYTES && (Pcir(rom, at) - at) % 4 == 0
    && Pcir(rom, at) + PCIR_BYTES <= |rom|
    && rom[Pcir(rom, at)..Pcir(rom, at) + 4] == ['P' as int, 'C' as int, 'I' as int, 'R' as int]
  }

  /** A 16-bit field of the PCI data structure. */
  function Field(rom: Rom, at: nat, offset: nat): (w: nat)
    requires HeaderOk(rom, at) && offset + 2 <= PCIR_BYTES
    ensures w < 0x1_0000
  {
    Word(rom, Pcir(rom, at) + offset)
  }

  function Vendor(rom: Rom, at: nat): nat
    requires HeaderOk(rom, at)
  {
    Field(rom, at, 0x04)
  }

  function Device(rom: Rom, at: nat): nat
    requires HeaderOk(rom, at)
  {
    Field(rom, at, 0x06)
  }

  function ListOffset(rom: Rom, at: nat): nat
    requires HeaderOk(rom, at)
  {
    Field(rom, at, 0x08)
  }

  function PcirLength(rom: Rom, at: nat): nat
    requires HeaderOk(rom, at)
  {
    Field(rom, at, 0x0A)
  }

  function Revision(rom: Rom, at: nat): nat
    requires HeaderOk(rom, at)
  {
    rom[Pcir(rom, at) + 0x0C]
  }

  function ImageSize(rom: Rom, at: nat): nat
    requires HeaderOk(rom, at)
  {
    Field(rom, at, 0x10) * BLOCK
  }

  function CodeRevision(rom: Rom, at: nat): nat
    requires HeaderOk(rom, at)
  {
    Field(rom, at, 0x12)
  }

  function CodeType(rom: Rom, at: nat): nat
    requires HeaderOk(rom, at)
  {
    rom[Pcir(rom, at) + 0x14]
  }

  function Indicator(rom: Rom, at: nat): nat
    requires HeaderOk(rom, at)
  {
    rom[Pcir(rom, at) + 0x15]
  }

  predicate LastImage(rom: Rom, at: nat)
    requires HeaderOk(rom, at)
  {
    Indicator(rom, at) >= 128
  }

  function End(rom: Rom, at: nat): nat
    requires HeaderOk(rom, at)
  {
    at + ImageSize(rom, at)
  }

  /** The image lies in the ROM and its PCI data structure lies in the image. */
  predicate ExtentOk(rom: Rom, at: nat) {
    && HeaderOk(rom, at)
    && ImageSize(rom, at) > 0 && End(rom, at) <= |rom|
    && PcirLength(rom, at) >= PCIR_BYTES
    && Pcir(rom, at) + PcirLength(rom, at) <= End(rom, at)
    && Indicator(rom, at) % 128 == 0
  }

  // ------------------------------------------------------------------ PCI 3.0

  predicate Is3(rom: Rom, at: nat)
    requires ExtentOk(rom, at)
  {
    Revision(rom, at) >= 3
  }

  /** A PCI 3.0 structure is complete, hence so are its extra fields. */
  predicate Long(rom: Rom, at: nat) {
    ExtentOk(rom, at) && PcirLength(rom, at) >= PCIR3_BYTES
  }

  function Extra(rom: Rom, at: nat, offset: nat): (w: nat)
    requires Long(rom, at) && PCIR_BYTES - 2 <= offset && offset + 2 <= PCIR3_BYTES
    ensures w < 0x1_0000
  {
    Word(rom, Pcir(rom, at) + offset)
  }

  function RuntimeSize(rom: Rom, at: nat): nat
    requires Long(rom, at)
  {
    Extra(rom, at, 0x16) * BLOCK
  }

  /** Entry j of a device list. */
  function Entry(rom: Rom, list: nat, j: nat): nat
    requires list + 2 * j + 2 <= |rom|
  {
    Word(rom, list + 2 * j)
  }

  /** A device list ends with its first zero, at entry k, before `end`. */
  ghost predicate ListEnds(rom: Rom, list: nat, end: nat, k: nat) {
    && list + 2 * k + 2 <= end <= |rom|
    && Entry(rom, list, k) == 0
    && forall j :: 0 <= j < k ==> Entry(rom, list, j) != 0
  }

  ghost predicate Terminated(rom: Rom, list: nat, end: nat) {
    exists k :: ListEnds(rom, list, end, k)
  }

  ghost predicate Mentions(rom: Rom, list: nat, k: nat, device: nat)
    requires list + 2 * k <= |rom|
  {
    exists j :: 0 <= j < k && Entry(rom, list, j) == device
  }

  ghost predicate Lists(rom: Rom, list: nat, end: nat, device: nat) {
    exists k :: ListEnds(rom, list, end, k) && Mentions(rom, list, k, device)
  }

  ghost predicate DeviceListOk(rom: Rom, at: nat)
    requires ExtentOk(rom, at)
  {
    ListOffset(rom, at) == 0 ||
    (&& ListOffset(rom, at) % 2 == 0 && ListOffset(rom, at) >= PcirLength(rom, at)
     && Terminated(rom, Pcir(rom, at) + ListOffset(rom, at), End(rom, at)))
  }

  /** A printable, zero-terminated identifier. */
  ghost predicate NameEnds(rom: Rom, name: nat, k: nat) {
    && k < CONFIG_NAME_BYTES && name + k < |rom| && rom[name + k] == 0
    && forall j :: name <= j < name + k ==> 0x20 <= rom[j] <= 0x7E
  }

  ghost predicate NameOk(rom: Rom, name: nat) {
    exists k :: NameEnds(rom, name, k)
  }

  ghost predicate ConfigOk(rom: Rom, at: nat)
    requires Long(rom, at)
  {
    var offset := Extra(rom, at, 0x18);
    offset == 0 ||
    (&& at + offset + CONFIG_HEADER_BYTES <= End(rom, at)
     && rom[at + offset] != 0 && rom[at + offset + 41] == 1
     && at + offset + rom[at + offset] * BLOCK <= End(rom, at)
     && NameOk(rom, at + offset + 1))
  }

  ghost predicate MetadataOk(rom: Rom, at: nat)
    requires Long(rom, at)
  {
    && RuntimeSize(rom, at) <= ImageSize(rom, at)
    && ConfigOk(rom, at)
    && (Extra(rom, at, 0x1A) == 0 || at + Extra(rom, at, 0x1A) < End(rom, at))
  }

  ghost predicate Pci3Ok(rom: Rom, at: nat)
    requires ExtentOk(rom, at)
  {
    Is3(rom, at) ==> Long(rom, at) && DeviceListOk(rom, at) && MetadataOk(rom, at)
  }

  // ------------------------------------------------------------ building an image

  /** An image by its fields, as the layout lists them: the header with its entry
      code, then the PCI data structure at its offset, then the rest. */
  datatype Image = Image(
    legacyBlocks: u8, entry: seq<u8>, gap: seq<u8>,
    vendor: nat, device: nat, list: nat, length: nat, revision: u8, class0: u8, class1: u8, class2: u8,
    blocks: nat, codeRevision: nat, codeType: u8, indicator: u8, runtime: nat, config: nat, entryPoint: nat,
    rest: seq<u8>)
  {
    predicate Valid() {
      && |entry| == 21 && HEADER_BYTES + |gap| < 0x1_0000 && (HEADER_BYTES + |gap|) % 4 == 0
      && vendor < 0x1_0000 && device < 0x1_0000 && list < 0x1_0000 && length < 0x1_0000
      && blocks < 0x1_0000 && codeRevision < 0x1_0000
      && runtime < 0x1_0000 && config < 0x1_0000 && entryPoint < 0x1_0000
    }
  }

  function Low(w: nat): u8 {
    w % 256
  }

  function High(w: nat): u8
    requires w < 0x1_0000
  {
    w / 256
  }

  function HeaderBytes(i: Image): (h: seq<u8>)
    requires i.Valid()
    ensures |h| == HEADER_BYTES
  {
    var offset := HEADER_BYTES + |i.gap|;
    [0x55, 0xAA, i.legacyBlocks] + i.entry + [Low(offset), High(offset)]
  }

  function PcirBytes(i: Image): (p: seq<u8>)
    requires i.Valid()
    ensures |p| == PCIR3_BYTES
  {
    ['P' as int, 'C' as int, 'I' as int, 'R' as int,
     Low(i.vendor), High(i.vendor), Low(i.device), High(i.device), Low(i.list), High(i.list),
     Low(i.length), High(i.length), i.revision, i.class0, i.class1, i.class2,
     Low(i.blocks), High(i.blocks), Low(i.codeRevision), High(i.codeRevision), i.codeType, i.indicator,
     Low(i.runtime), High(i.runtime), Low(i.config), High(i.config), Low(i.entryPoint), High(i.entryPoint)]
  }

  function ImageBytes(i: Image): Rom
    requires i.Valid()
  {
    HeaderBytes(i) + i.gap + PcirBytes(i) + i.rest
  }

  /** The header and the PCI data structure lie in the ROM where they were built. */
  lemma BuiltParts(before: Rom, i: Image, after: Rom)
    requires i.Valid()
    ensures var rom, at, p := before + ImageBytes(i) + after, |before|, |before| + HEADER_BYTES + |i.gap|;
      && p + PCIR3_BYTES <= |rom|
      && rom[at..at + HEADER_BYTES] == HeaderBytes(i) && rom[p..p + PCIR3_BYTES] == PcirBytes(i)
  {
    hide HeaderBytes, PcirBytes;
  }

  lemma WordAt(rom: Rom, start: nat, part: seq<u8>, k: nat)
    requires start + |part| <= |rom| && rom[start..start + |part|] == part && k + 2 <= |part|
    ensures Word(rom, start + k) == part[k] as int + 256 * (part[k + 1] as int)
  {
    assert rom[start + k] == part[k] && rom[start + k + 1] == part[k + 1];
  }

  lemma TwoBytes(w: nat)
    requires w < 0x1_0000
    ensures Low(w) as int + 256 * (High(w) as int) == w
  {
  }

  /** The header of a built image passes its check and locates the structure. */
  lemma BuiltHeader(rom: Rom, at: nat, i: Image)
    requires i.Valid() && at + HEADER_BYTES + |i.gap| + PCIR3_BYTES <= |rom|
    requires rom[at..at + HEADER_BYTES] == HeaderBytes(i)
    requires var p := at + HEADER_BYTES + |i.gap|; rom[p..p + PCIR3_BYTES] == PcirBytes(i)
    ensures HeaderOk(rom, at) && Pcir(rom, at) == at + HEADER_BYTES + |i.gap|
    ensures LegacySize(rom, at) == i.legacyBlocks * BLOCK
  {
    var offset := HEADER_BYTES + |i.gap|;
    var h, p := HeaderBytes(i), PcirBytes(i);
    WordAt(rom, at, h, 0);
    WordAt(rom, at, h, 0x18);
    TwoBytes(offset);
    assert h[0] == 0x55 && h[1] == 0xAA && h[2] == i.legacyBlocks;
    assert h[0x18] == Low(offset) && h[0x19] == High(offset);
    assert rom[at + 2] == h[2];
    var start := at + offset;
    assert rom[start..start + 4] == p[..4] by {
      assert rom[start..start + PCIR3_BYTES][..4] == rom[start..start + 4];
    }
    hide HeaderBytes, Low, High, Word;
    assert p[..4] == ['P' as int, 'C' as int, 'I' as int, 'R' as int];
  }

  /** Every field of an image is read back from its bytes, wherever the image lies. */
  lemma ImageReadsBack(before: Rom, i: Image, after: Rom)
    requires i.Valid()
    ensures var rom, at := before + ImageBytes(i) + after, |before|;
      && HeaderOk(rom, at)
      && LegacySize(rom, at) == i.legacyBlocks * BLOCK
      && Vendor(rom, at) == i.vendor && Device(rom, at) == i.device
      && ListOffset(rom, at) == i.list && PcirLength(rom, at) == i.length
      && Revision(rom, at) == i.revision && ImageSize(rom, at) == i.blocks * BLOCK
      && CodeRevision(rom, at) == i.codeRevision && CodeType(rom, at) == i.codeType
      && (LastImage(rom, at) <==> i.indicator >= 128)
      && (Long(rom, at) ==>
            && RuntimeSize(rom, at) == i.runtime * BLOCK
            && Extra(rom, at, 0x18) == i.config && Extra(rom, at, 0x1A) == i.entryPoint)
  {
    var rom, at := before + ImageBytes(i) + after, |before|;
    BuiltParts(before, i, after);
    BuiltHeader(rom, at, i);
    BuiltFields(rom, Pcir(rom, at), i);
    hide ImageBytes, HeaderOk, ExtentOk, Word, LegacySize;
  }

  lemma BuiltFields(rom: Rom, p: nat, i: Image)
    requires i.Valid() && p + PCIR3_BYTES <= |rom| && rom[p..p + PCIR3_BYTES] == PcirBytes(i)
    ensures Word(rom, p + 0x04) == i.vendor && Word(rom, p + 0x06) == i.device
    ensures Word(rom, p + 0x08) == i.list && Word(rom, p + 0x0A) == i.length && rom[p + 0x0C] == i.revision
    ensures Word(rom, p + 0x10) == i.blocks && Word(rom, p + 0x12) == i.codeRevision
    ensures rom[p + 0x14] == i.codeType && rom[p + 0x15] == i.indicator
    ensures Word(rom, p + 0x16) == i.runtime && Word(rom, p + 0x18) == i.config && Word(rom, p + 0x1A) == i.entryPoint
  {
    var part := PcirBytes(i);
    BuiltWord(rom, p, part, 0x04, i.vendor);
    BuiltWord(rom, p, part, 0x06, i.device);
    BuiltWord(rom, p, part, 0x08, i.list);
    BuiltWord(rom, p, part, 0x0A, i.length);
    BuiltWord(rom, p, part, 0x10, i.blocks);
    BuiltWord(rom, p, part, 0x12, i.codeRevision);
    BuiltWord(rom, p, part, 0x16, i.runtime);
    BuiltWord(rom, p, part, 0x18, i.config);
    BuiltWord(rom, p, part, 0x1A, i.entryPoint);
    assert rom[p + 0x0C] == part[0x0C] && rom[p + 0x14] == part[0x14] && rom[p + 0x15] == part[0x15];
    hide Word, Low, High;
  }

  lemma BuiltWord(rom: Rom, start: nat, part: seq<u8>, k: nat, w: nat)
    requires start + |part| <= |rom| && rom[start..start + |part|] == part && k + 2 <= |part|
    requires w < 0x1_0000 && part[k] == Low(w) && part[k + 1] == High(w)
    ensures Word(rom, start + k) == w
  {
    WordAt(rom, start, part, k);
    TwoBytes(w);
    hide Word;
  }

  // -------------------------------------------------------------- legacy images

  function LegacySize(rom: Rom, at: nat): nat
    requires HeaderOk(rom, at)
  {
    rom[at + 2] * BLOCK
  }

  ghost predicate PcatOk(rom: Rom, at: nat)
    requires ExtentOk(rom, at)
  {
    var pcirEnd := Pcir(rom, at) + PcirLength(rom, at);
    && 0 < LegacySize(rom, at) <= ImageSize(rom, at)
    && pcirEnd <= at + LegacySize(rom, at)
    && (Is3(rom, at) ==>
          Long(rom, at) && RuntimeSize(rom, at) <= LegacySize(rom, at) &&
          (RuntimeSize(rom, at) != 0 ==> pcirEnd <= at + RuntimeSize(rom, at)))
  }

  ghost predicate ImageOk(rom: Rom, at: nat) {
    && ExtentOk(rom, at)
    && Pci3Ok(rom, at)
    && (CodeType(rom, at) == CODE_PCAT ==> PcatOk(rom, at))
  }

  // -------------------------------------------------------------------- targets

  function Sum(s: Rom): (n: nat) {
    if s == [] then 0 else Sum(s[..|s| - 1]) + s[|s| - 1]
  }

  ghost predicate Zero(rom: Rom, at: nat, size: nat) {
    at + size <= |rom| && Sum(rom[at..at + size]) % 256 == 0
  }

  /** The image names the device, directly or in its list. */
  ghost predicate Names(rom: Rom, at: nat, vendor: nat, device: nat)
    requires ImageOk(rom, at)
  {
    && Vendor(rom, at) == vendor
    && (|| Device(rom, at) == device
        || (&& Is3(rom, at) && ListOffset(rom, at) != 0
            && Lists(rom, Pcir(rom, at) + ListOffset(rom, at), End(rom, at), device)))
  }

  ghost predicate LegacyTarget(rom: Rom, at: nat, vendor: nat, device: nat) {
    ImageOk(rom, at) && CodeType(rom, at) == CODE_PCAT && Names(rom, at, vendor, device)
  }

  ghost predicate UefiTarget(rom: Rom, at: nat, vendor: nat, device: nat) {
    ImageOk(rom, at) && CodeType(rom, at) == CODE_EFI && Names(rom, at, vendor, device)
  }

  ghost predicate Acceptable(rom: Rom, at: nat, vendor: nat, device: nat) {
    && LegacyTarget(rom, at, vendor, device)
    && Zero(rom, at, ImageSize(rom, at)) && Zero(rom, at, LegacySize(rom, at))
  }

  // --------------------------------------------------------------------- tilings

  /** The images at these offsets tile the ROM: each starts where the one before
      ends, the last ends with the ROM, and only the last carries the final flag. */
  ghost predicate Tiles(rom: Rom, starts: seq<nat>) {
    && |starts| > 0 && starts[0] == 0
    && (forall i :: 0 <= i < |starts| ==> ImageOk(rom, starts[i]))
    && (forall i :: 0 <= i < |starts| ==> (LastImage(rom, starts[i]) <==> i == |starts| - 1))
    && (forall i :: 0 <= i < |starts| - 1 ==> starts[i + 1] == End(rom, starts[i]))
    && End(rom, starts[|starts| - 1]) == |rom|
  }

  /** A chain of images that are not the last, ending at `next`. */
  ghost predicate Chained(rom: Rom, starts: seq<nat>, next: nat)
    decreases |starts|
  {
    if starts == [] then next == 0
    else
      var last := starts[|starts| - 1];
      && ImageOk(rom, last) && !LastImage(rom, last) && next == End(rom, last)
      && Chained(rom, starts[..|starts| - 1], last)
  }

  /** A tiling is determined by the ROM: it extends every chain. */
  lemma {:induction false} TilingExtends(rom: Rom, tiling: seq<nat>, starts: seq<nat>, next: nat)
    requires Tiles(rom, tiling) && Chained(rom, starts, next)
    ensures |starts| < |tiling| && starts <= tiling && tiling[|starts|] == next
    decreases |starts|
  {
    hide ImageOk;
    if starts != [] {
      var init, last := starts[..|starts| - 1], starts[|starts| - 1];
      TilingExtends(rom, tiling, init, last);
      assert starts == init + [last];
    }
  }

  lemma TilingIsUnique(rom: Rom, a: seq<nat>, b: seq<nat>)
    requires Tiles(rom, a) && Tiles(rom, b)
    ensures a == b
  {
    hide ImageOk;
    var init := a[..|a| - 1];
    TilingChains(rom, a, |a| - 1);
    TilingExtends(rom, b, init, a[|a| - 1]);
    assert a == init + [a[|a| - 1]];
    assert b[|a| - 1] == a[|a| - 1];
  }

  lemma {:induction false} TilingChains(rom: Rom, tiling: seq<nat>, k: nat)
    requires Tiles(rom, tiling) && k < |tiling|
    ensures Chained(rom, tiling[..k], tiling[k])
  {
    hide ImageOk;
    if k > 0 {
      TilingChains(rom, tiling, k - 1);
      assert tiling[..k][..k - 1] == tiling[..k - 1];
    }
  }

  /** Every byte of a tiled ROM lies in exactly one image. */
  lemma TilingCovers(rom: Rom, tiling: seq<nat>, position: nat)
    requires Tiles(rom, tiling) && position < |rom|
    ensures exists i :: 0 <= i < |tiling| && Covers(rom, tiling, i, position)
    ensures forall i, j :: 0 <= i < j < |tiling| ==> End(rom, tiling[i]) <= tiling[j]
  {
    CoverBefore(rom, tiling, |tiling|, position);
    forall i, j | 0 <= i < j < |tiling| ensures End(rom, tiling[i]) <= tiling[j] {
      InOrder(rom, tiling, i, j);
    }
  }

  ghost predicate Covers(rom: Rom, tiling: seq<nat>, i: nat, position: nat)
    requires i < |tiling|
  {
    HeaderOk(rom, tiling[i]) && tiling[i] <= position < End(rom, tiling[i])
  }

  lemma {:induction false} CoverBefore(rom: Rom, tiling: seq<nat>, k: nat, position: nat)
    requires Tiles(rom, tiling) && 0 < k <= |tiling| && position < End(rom, tiling[k - 1])
    ensures exists i :: 0 <= i < k && Covers(rom, tiling, i, position)
  {
    ImageInside(rom, tiling[k - 1]);
    hide ImageOk;
    if tiling[k - 1] <= position {
      assert Covers(rom, tiling, k - 1, position);
    } else {
      CoverBefore(rom, tiling, k - 1, position);
    }
  }

  lemma {:induction false} InOrder(rom: Rom, tiling: seq<nat>, i: nat, j: nat)
    requires Tiles(rom, tiling) && i < j < |tiling|
    ensures End(rom, tiling[i]) <= tiling[j]
    decreases j
  {
    if i < j - 1 {
      InOrder(rom, tiling, i, j - 1);
      ImageInside(rom, tiling[j - 1]);
    }
  }

  /** No tiling exists once the next image of a chain is broken. */
  ghost predicate Broken(rom: Rom, next: nat) {
    || !ImageOk(rom, next)
    || (LastImage(rom, next) && End(rom, next) != |rom|)
    || (!LastImage(rom, next) && End(rom, next) >= |rom|)
  }

  lemma BrokenChain(rom: Rom, starts: seq<nat>, next: nat)
    requires Chained(rom, starts, next) && Broken(rom, next)
    ensures forall tiling :: !Tiles(rom, tiling)
  {
    forall tiling | Tiles(rom, tiling) ensures false {
      TilingExtends(rom, tiling, starts, next);
      var k := |starts|;
      if k + 1 < |tiling| {
        assert ImageOk(rom, tiling[k + 1]);
        ImageInside(rom, tiling[k + 1]);
      }
    }
  }

  lemma ImageInside(rom: Rom, at: nat)
    requires ImageOk(rom, at)
    ensures at + BLOCK <= End(rom, at) <= |rom|
  {
  }

  lemma ChainComplete(rom: Rom, starts: seq<nat>, next: nat)
    requires Chained(rom, starts, next) && ImageOk(rom, next) && LastImage(rom, next) && End(rom, next) == |rom|
    ensures Tiles(rom, starts + [next])
  {
    ChainFacts(rom, starts, next);
  }

  lemma {:induction false} ChainFacts(rom: Rom, starts: seq<nat>, next: nat)
    requires Chained(rom, starts, next)
    ensures forall i :: 0 <= i < |starts| ==>
      && ImageOk(rom, starts[i]) && !LastImage(rom, starts[i])
      && (i + 1 < |starts| ==> starts[i + 1] == End(rom, starts[i]))
    ensures if starts == [] then next == 0 else starts[0] == 0 && next == End(rom, starts[|starts| - 1])
    decreases |starts|
  {
    hide ImageOk;
    if starts != [] {
      var init, last := starts[..|starts| - 1], starts[|starts| - 1];
      ChainFacts(rom, init, last);
      assert starts == init + [last];
    }
  }

  // ------------------------------------------------------------------ the parser

  method ComputeChecksum(rom: Rom, offset: nat, length: nat) returns (checksum: u8)
    requires offset + length <= |rom|
    ensures checksum == Sum(rom[offset..offset + length]) % 256
  {
    checksum := 0;
    for index := 0 to length
      invariant checksum == Sum(rom[offset..offset + index]) % 256
    {
      var summed := rom[offset..offset + index + 1];
      assert summed[..index] == rom[offset..offset + index] && summed[index] == rom[offset + index];
      checksum := (checksum as int + rom[offset + index] as int) % 256;
    }
  }

  /** Walks a device list inside its image. */
  method WalkDeviceList(rom: Rom, list: nat, end: nat, device: nat) returns (ok: bool, listed: bool)
    requires end <= |rom|
    ensures ok <==> Terminated(rom, list, end)
    ensures ok ==> (listed <==> Lists(rom, list, end, device))
  {
    listed := false;
    if list + 2 > end {
      return false, false;
    }
    var maximum := (end - list) / 2;
    for index := 0 to maximum
      invariant forall j :: 0 <= j < index ==> Entry(rom, list, j) != 0
      invariant listed <==> Mentions(rom, list, index, device)
    {
      var entry := Word(rom, list + 2 * index);
      assert Entry(rom, list, index) == entry;
      if entry == 0 {
        assert ListEnds(rom, list, end, index);
        return true, listed;
      }
      if entry == device {
        listed := true;
      }
    }
    ok := false;
  }

  method CheckDeviceList(rom: Rom, at: nat, device: nat) returns (ok: bool, listed: bool)
    requires ExtentOk(rom, at)
    ensures ok <==> DeviceListOk(rom, at)
    ensures ok ==>
      (listed <==> ListOffset(rom, at) != 0 && Lists(rom, Pcir(rom, at) + ListOffset(rom, at), End(rom, at), device))
  {
    hide Terminated, Lists;
    var offset := ListOffset(rom, at);
    if offset == 0 {
      return true, false;
    }
    if offset % 2 != 0 || offset < PcirLength(rom, at) {
      return false, false;
    }
    ok, listed := WalkDeviceList(rom, Pcir(rom, at) + offset, End(rom, at), device);
  }

  method CheckName(rom: Rom, name: nat) returns (ok: bool)
    requires name + CONFIG_NAME_BYTES <= |rom|
    ensures ok <==> NameOk(rom, name)
  {
    for index := 0 to CONFIG_NAME_BYTES
      invariant forall j :: name <= j < name + index ==> rom[j] != 0 && 0x20 <= rom[j] <= 0x7E
    {
      var character := rom[name + index];
      if character == 0 {
        assert NameEnds(rom, name, index);
        return true;
      }
      if character < 0x20 || character > 0x7E {
        return false;
      }
    }
    return false;
  }

  method CheckConfig(rom: Rom, at: nat) returns (ok: bool)
    requires Long(rom, at)
    ensures ok <==> ConfigOk(rom, at)
  {
    hide NameOk;
    var offset := Extra(rom, at, 0x18);
    if offset == 0 {
      return true;
    }
    if at + offset + CONFIG_HEADER_BYTES > End(rom, at) {
      return false;
    }
    var blocks, revision := rom[at + offset], rom[at + offset + 41];
    if blocks == 0 || revision != 1 || at + offset + blocks * BLOCK > End(rom, at) {
      return false;
    }
    ok := CheckName(rom, at + offset + 1);
  }

  method CheckMetadata(rom: Rom, at: nat) returns (ok: bool)
    requires Long(rom, at)
    ensures ok <==> MetadataOk(rom, at)
  {
    hide ConfigOk;
    if RuntimeSize(rom, at) > ImageSize(rom, at) {
      return false;
    }
    ok := CheckConfig(rom, at);
    if !ok {
      return;
    }
    var dmtf := Extra(rom, at, 0x1A);
    ok := dmtf == 0 || at + dmtf < End(rom, at);
  }

  method CheckPci3(rom: Rom, at: nat, device: nat) returns (ok: bool, named: bool)
    requires ExtentOk(rom, at)
    ensures ok <==> Pci3Ok(rom, at)
    ensures ok ==> (named <==> || Device(rom, at) == device
                               || (&& Is3(rom, at) && ListOffset(rom, at) != 0
                                   && Lists(rom, Pcir(rom, at) + ListOffset(rom, at), End(rom, at), device)))
  {
    hide DeviceListOk, MetadataOk, Lists;
    named := Device(rom, at) == device;
    if !Is3(rom, at) {
      return true, named;
    }
    if PcirLength(rom, at) < PCIR3_BYTES {
      return false, false;
    }
    var listed: bool;
    ok, listed := CheckDeviceList(rom, at, device);
    if !ok {
      return;
    }
    ok := CheckMetadata(rom, at);
    named := named || listed;
  }

  method CheckPcat(rom: Rom, at: nat) returns (ok: bool, zero: bool)
    requires ExtentOk(rom, at) && Pci3Ok(rom, at)
    ensures ok <==> PcatOk(rom, at)
    ensures ok ==> (zero <==> Zero(rom, at, LegacySize(rom, at)))
  {
    hide DeviceListOk, MetadataOk;
    zero := false;
    var size := LegacySize(rom, at);
    if size == 0 || size > ImageSize(rom, at) {
      return false, false;
    }
    var checksum := ComputeChecksum(rom, at, size);
    zero := checksum == 0;
    var pcirEnd := Pcir(rom, at) + PcirLength(rom, at);
    if pcirEnd > at + size {
      return false, zero;
    }
    if !Is3(rom, at) {
      return true, zero;
    }
    var runtime := RuntimeSize(rom, at);
    ok := runtime <= size && (runtime == 0 || pcirEnd <= at + runtime);
  }

  /** What the parser learns about one image. */
  datatype Finding = Bad | Other | Uefi | Rejected | Accepted

  ghost predicate Found(rom: Rom, at: nat, vendor: nat, device: nat, f: Finding) {
    && (f == Bad <==> !ImageOk(rom, at))
    && (f == Uefi <==> UefiTarget(rom, at, vendor, device))
    && (f == Accepted <==> Acceptable(rom, at, vendor, device))
    && (f == Rejected <==> LegacyTarget(rom, at, vendor, device) && !Acceptable(rom, at, vendor, device))
  }

  method CheckImage(rom: Rom, at: nat, vendor: nat, device: nat) returns (f: Finding)
    ensures Found(rom, at, vendor, device, f)
  {
    hide ExtentOk, Pci3Ok, PcatOk, Lists, Zero;
    var ok := CheckExtent(rom, at);
    if !ok {
      return Bad;
    }
    HeaderOfExtent(rom, at);
    var named: bool;
    ok, named := CheckPci3(rom, at, device);
    if !ok {
      return Bad;
    }
    var imageSum := ComputeChecksum(rom, at, ImageSize(rom, at));
    ZeroSum(rom, at, ImageSize(rom, at), imageSum);
    var legacyZero := false;
    if CodeType(rom, at) == CODE_PCAT {
      ok, legacyZero := CheckPcat(rom, at);
      if !ok {
        return Bad;
      }
    }
    var target := Vendor(rom, at) == vendor && named;
    if target && CodeType(rom, at) == CODE_PCAT {
      return if imageSum == 0 && legacyZero then Accepted else Rejected;
    }
    f := if target && CodeType(rom, at) == CODE_EFI then Uefi else Other;
  }

  lemma HeaderOfExtent(rom: Rom, at: nat)
    requires ExtentOk(rom, at)
    ensures HeaderOk(rom, at) && at + BLOCK <= End(rom, at) <= |rom|
  {
  }

  lemma ZeroSum(rom: Rom, at: nat, size: nat, checksum: u8)
    requires at + size <= |rom| && checksum == Sum(rom[at..at + size]) % 256
    ensures checksum == 0 <==> Zero(rom, at, size)
  {
  }

  method CheckExtent(rom: Rom, at: nat) returns (ok: bool)
    ensures ok <==> ExtentOk(rom, at)
  {
    if !HeaderOk(rom, at) {
      return false;
    }
    if Field(rom, at, 0x10) == 0 || End(rom, at) > |rom| || PcirLength(rom, at) < PCIR_BYTES {
      return false;
    }
    ok := Pcir(rom, at) + PcirLength(rom, at) <= End(rom, at) && Indicator(rom, at) % 128 == 0;
  }

  // ------------------------------------------------------------------- the chain

  datatype Match = Match(offset: nat, size: nat, pcirOffset: nat, codeRevision: nat, pcirRevision: nat)

  datatype Seen = Seen(found: Option<Match>, candidates: nat, legacy: bool, uefi: bool)

  datatype Outcome =
    | Valid(imageCount: nat, candidates: nat, first: Match, uefi: bool)
    | InvalidParameter | BadBufferSize | CompromisedData | CrcError | Unsupported | NotFound

  function MatchAt(rom: Rom, at: nat): Match
    requires HeaderOk(rom, at)
  {
    Match(at, ImageSize(rom, at), Pcir(rom, at), CodeRevision(rom, at), Revision(rom, at))
  }

  /** Image k is the first acceptable one. */
  ghost predicate IsFirst(rom: Rom, starts: seq<nat>, vendor: nat, device: nat, k: nat) {
    && k < |starts| && HeaderOk(rom, starts[k]) && Acceptable(rom, starts[k], vendor, device)
    && forall j :: 0 <= j < k ==> !Acceptable(rom, starts[j], vendor, device)
  }

  ghost predicate First(rom: Rom, starts: seq<nat>, vendor: nat, device: nat, m: Match) {
    exists k: nat :: IsFirst(rom, starts, vendor, device, k) && m == MatchAt(rom, starts[k])
  }

  ghost predicate AnyAcceptable(rom: Rom, starts: seq<nat>, vendor: nat, device: nat) {
    exists i :: 0 <= i < |starts| && Acceptable(rom, starts[i], vendor, device)
  }

  ghost predicate AnyLegacy(rom: Rom, starts: seq<nat>, vendor: nat, device: nat) {
    exists i :: 0 <= i < |starts| && LegacyTarget(rom, starts[i], vendor, device)
  }

  ghost predicate AnyUefi(rom: Rom, starts: seq<nat>, vendor: nat, device: nat) {
    exists i :: 0 <= i < |starts| && UefiTarget(rom, starts[i], vendor, device)
  }

  ghost function CountAcceptable(rom: Rom, starts: seq<nat>, vendor: nat, device: nat): nat {
    if starts == [] then 0
    else CountAcceptable(rom, starts[..|starts| - 1], vendor, device) +
         (if Acceptable(rom, starts[|starts| - 1], vendor, device) then 1 else 0)
  }

  /** The record after these images. */
  ghost predicate Records(rom: Rom, starts: seq<nat>, vendor: nat, device: nat, seen: Seen) {
    && (seen.found.Some? <==> AnyAcceptable(rom, starts, vendor, device))
    && (seen.found.Some? ==> First(rom, starts, vendor, device, seen.found.value))
    && seen.candidates == CountAcceptable(rom, starts, vendor, device)
    && (seen.legacy <==> AnyLegacy(rom, starts, vendor, device))
    && (seen.uefi <==> AnyUefi(rom, starts, vendor, device))
  }

  function Note(rom: Rom, at: nat, seen: Seen, f: Finding): Seen
    requires f == Accepted ==> HeaderOk(rom, at)
  {
    match f
    case Accepted =>
      Seen(if seen.found.Some? then seen.found else Some(MatchAt(rom, at)), seen.candidates + 1, true, seen.uefi)
    case Rejected => seen.(legacy := true)
    case Uefi => seen.(uefi := true)
    case _ => seen
  }

  lemma NoteRecords(rom: Rom, starts: seq<nat>, at: nat, vendor: nat, device: nat, seen: Seen, f: Finding)
    requires Records(rom, starts, vendor, device, seen) && Found(rom, at, vendor, device, f) && HeaderOk(rom, at)
    ensures Records(rom, starts + [at], vendor, device, Note(rom, at, seen, f))
  {
    hide HeaderOk, ImageOk, LegacyTarget, UefiTarget, Acceptable;
    AcceptableIsLegacy(rom, at, vendor, device);
    PushAny(rom, starts, at, vendor, device);
    PushFirst(rom, starts, at, vendor, device);
    assert (starts + [at])[..|starts|] == starts;
    hide First, AnyAcceptable, AnyLegacy, AnyUefi;
  }

  lemma AcceptableIsLegacy(rom: Rom, at: nat, vendor: nat, device: nat)
    ensures Acceptable(rom, at, vendor, device) ==> LegacyTarget(rom, at, vendor, device)
    ensures !(LegacyTarget(rom, at, vendor, device) && UefiTarget(rom, at, vendor, device))
  {
    hide ImageOk, Names, Zero;
  }

  lemma PushAny(rom: Rom, starts: seq<nat>, at: nat, vendor: nat, device: nat)
    ensures AnyAcceptable(rom, starts + [at], vendor, device) <==>
            AnyAcceptable(rom, starts, vendor, device) || Acceptable(rom, at, vendor, device)
    ensures AnyLegacy(rom, starts + [at], vendor, device) <==>
            AnyLegacy(rom, starts, vendor, device) || LegacyTarget(rom, at, vendor, device)
    ensures AnyUefi(rom, starts + [at], vendor, device) <==>
            AnyUefi(rom, starts, vendor, device) || UefiTarget(rom, at, vendor, device)
  {
    hide LegacyTarget, UefiTarget, Acceptable;
    var more := starts + [at];
    assert more[|starts|] == at;
    assert forall i :: 0 <= i < |starts| ==> more[i] == starts[i];
  }

  lemma PushFirst(rom: Rom, starts: seq<nat>, at: nat, vendor: nat, device: nat)
    ensures forall m :: First(rom, starts, vendor, device, m) ==> First(rom, starts + [at], vendor, device, m)
    ensures Acceptable(rom, at, vendor, device) && !AnyAcceptable(rom, starts, vendor, device) && HeaderOk(rom, at) ==>
            First(rom, starts + [at], vendor, device, MatchAt(rom, at))
  {
    hide HeaderOk, Acceptable;
    var more := starts + [at];
    forall m | First(rom, starts, vendor, device, m) ensures First(rom, more, vendor, device, m) {
      var k: nat :| IsFirst(rom, starts, vendor, device, k) && m == MatchAt(rom, starts[k]);
      assert IsFirst(rom, more, vendor, device, k) && more[k] == starts[k];
    }
    if Acceptable(rom, at, vendor, device) && !AnyAcceptable(rom, starts, vendor, device) && HeaderOk(rom, at) {
      assert IsFirst(rom, more, vendor, device, |starts|);
    }
  }

  /** What the outcome says about a tiled ROM. */
  ghost predicate Verdict(rom: Rom, starts: seq<nat>, vendor: nat, device: nat, r: Outcome) {
    match r
    case Valid(imageCount, candidates, first, uefi) =>
      && imageCount == |starts| && First(rom, starts, vendor, device, first)
      && candidates == CountAcceptable(rom, starts, vendor, device)
      && (uefi <==> AnyUefi(rom, starts, vendor, device))
    case CrcError => AnyLegacy(rom, starts, vendor, device) && !AnyAcceptable(rom, starts, vendor, device)
    case Unsupported => !AnyLegacy(rom, starts, vendor, device) && AnyUefi(rom, starts, vendor, device)
    case NotFound => !AnyLegacy(rom, starts, vendor, device) && !AnyUefi(rom, starts, vendor, device)
    case _ => false
  }

  function Conclude(imageCount: nat, seen: Seen): Outcome {
    match seen.found
    case Some(m) => Valid(imageCount, seen.candidates, m, seen.uefi)
    case None => if seen.legacy then CrcError else if seen.uefi then Unsupported else NotFound
  }

  lemma ConcludeIsVerdict(rom: Rom, starts: seq<nat>, vendor: nat, device: nat, seen: Seen)
    requires Records(rom, starts, vendor, device, seen)
    ensures Verdict(rom, starts, vendor, device, Conclude(|starts|, seen))
  {
    hide First, AnyAcceptable, AnyLegacy, AnyUefi, CountAcceptable;
  }

  ghost predicate Justified(rom: Rom, vendor: nat, device: nat, r: Outcome) {
    exists starts :: Tiles(rom, starts) && Verdict(rom, starts, vendor, device, r)
  }

  /** The parser.  It finishes the walk exactly when the images tile the ROM, and
      then its outcome is about that tiling. */
  method ParseAndValidate(rom: Rom, base: u64, expectedSize: nat, vendor: nat, device: nat) returns (r: Outcome)
    ensures r == InvalidParameter <==> expectedSize == 0 || vendor == 0 || device == 0
    ensures r == BadBufferSize <==>
      && expectedSize != 0 && vendor != 0 && device != 0
      && (|rom| != expectedSize || |rom| < BLOCK || |rom| % BLOCK != 0 || |rom| > MAX_UINT64 ||
          base + |rom| - 1 > MAX_UINT64)
    ensures r == CompromisedData ==> forall starts :: !Tiles(rom, starts)
    ensures r.Valid? || r == CrcError || r == Unsupported || r == NotFound ==> Justified(rom, vendor, device, r)
  {
    if expectedSize == 0 || vendor == 0 || device == 0 {
      return InvalidParameter;
    }
    if |rom| != expectedSize {
      return BadBufferSize;
    }
    if |rom| < BLOCK || |rom| % BLOCK != 0 || |rom| > MAX_UINT64 {
      return BadBufferSize;
    }
    if base > MAX_UINT64 - (|rom| - 1) {
      return BadBufferSize;
    }
    hide Tiles, Justified;
    r := WalkChain(rom, vendor, device);
  }

  /** The walk along the chain of images. */
  method WalkChain(rom: Rom, vendor: nat, device: nat) returns (r: Outcome)
    requires |rom| >= BLOCK && |rom| % BLOCK == 0
    ensures r != InvalidParameter && r != BadBufferSize
    ensures r == CompromisedData ==> forall starts :: !Tiles(rom, starts)
    ensures r != CompromisedData ==> Justified(rom, vendor, device, r)
  {
    ChainStart(rom);
    hide ImageOk, HeaderOk, Records, Found, Verdict, Chained, Tiles, Broken, Justified;
    var offset: nat, count: nat, final := 0, 0, false;
    var seen := Seen(None, 0, false, false);
    ghost var starts: seq<nat> := [];
    NothingRecorded(rom, vendor, device);
    while count < |rom| / BLOCK && !final
      invariant count == |starts| && Records(rom, starts, vendor, device, seen)
      invariant !final ==> Chained(rom, starts, offset) && count * BLOCK <= offset < |rom|
      invariant final ==> Tiles(rom, starts)
      decreases |rom| / BLOCK - count
    {
      var f := CheckImage(rom, offset, vendor, device);
      BadIsBroken(rom, offset, vendor, device, f);
      if f == Bad {
        BrokenChain(rom, starts, offset);
        return CompromisedData;
      }
      ImageInside(rom, offset);
      EndBroken(rom, offset);
      NoteRecords(rom, starts, offset, vendor, device, seen, f);
      seen, count := Note(rom, offset, seen, f), count + 1;
      var next := End(rom, offset);
      if LastImage(rom, offset) {
        if next != |rom| {
          BrokenChain(rom, starts, offset);
          return CompromisedData;
        }
        ChainComplete(rom, starts, offset);
        final := true;
      } else if next >= |rom| {
        BrokenChain(rom, starts, offset);
        return CompromisedData;
      } else {
        ChainPush(rom, starts, offset);
      }
      starts := starts + [offset];
      offset := next;
    }
    if !final {
      assert false;
    }
    ConcludeIsVerdict(rom, starts, vendor, device, seen);
    r := Conclude(count, seen);
    VerdictKinds(rom, starts, vendor, device, r);
  }

  lemma ChainStart(rom: Rom)
    ensures Chained(rom, [], 0)
  {
  }

  lemma ChainPush(rom: Rom, starts: seq<nat>, at: nat)
    requires Chained(rom, starts, at) && ImageOk(rom, at) && !LastImage(rom, at)
    ensures Chained(rom, starts + [at], End(rom, at))
  {
    assert (starts + [at])[..|starts|] == starts;
  }

  lemma EndBroken(rom: Rom, at: nat)
    requires ImageOk(rom, at)
    ensures (if LastImage(rom, at) then End(rom, at) != |rom| else End(rom, at) >= |rom|) ==> Broken(rom, at)
  {
  }

  lemma NothingRecorded(rom: Rom, vendor: nat, device: nat)
    ensures Records(rom, [], vendor, device, Seen(None, 0, false, false))
  {
  }

  lemma BadIsBroken(rom: Rom, at: nat, vendor: nat, device: nat, f: Finding)
    requires Found(rom, at, vendor, device, f)
    ensures f == Bad ==> Broken(rom, at)
    ensures f != Bad ==> ImageOk(rom, at) && HeaderOk(rom, at)
  {
  }

  lemma VerdictKinds(rom: Rom, starts: seq<nat>, vendor: nat, device: nat, r: Outcome)
    requires Tiles(rom, starts) && Verdict(rom, starts, vendor, device, r)
    ensures Justified(rom, vendor, device, r)
    ensures r != InvalidParameter && r != BadBufferSize && r != CompromisedData
  {
  }
}
