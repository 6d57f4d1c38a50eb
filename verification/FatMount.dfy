/**
 Mounting: the boot sector of a volume is looked up on the device, and the BIOS parameter block in it becomes the
 geometry of the volume, or is refused. All arithmetic of the driver is on 32 bits.
 */
module FatMount {
  import opened FatDisk

  const WORD32 := 0x1_0000_0000

  function Low32(n: nat): (r: nat)
    ensures r < WORD32
    ensures n < WORD32 ==> r == n
    ensures r == n || r <= n - WORD32
  {
    n % WORD32
  }

  // ---- fields of the parameter block ----

  function FatSize(w: Sector): nat {
    if LdWord(w, 22) != 0 then LdWord(w, 22) else LdDword(w, 36)
  }

  function TotalSectors(w: Sector): nat {
    if LdWord(w, 19) != 0 then LdWord(w, 19) else LdDword(w, 32)
  }

  function NumFats(w: Sector): nat {
    w[16] as int
  }

  function ClusterSectors(w: Sector): nat {
    w[13] as int
  }

  function Reserved(w: Sector): nat {
    LdWord(w, 14)
  }

  function RootEntries(w: Sector): nat {
    LdWord(w, 17)
  }

  /** A byte with exactly one bit set. */
  predicate OneBit(n: nat) {
    n == 1 || n == 2 || n == 4 || n == 8 || n == 16 || n == 32 || n == 64 || n == 128
  }

  /** Sectors of all FAT copies. */
  function FatArea(w: Sector): nat {
    if NumFats(w) == 2 then 2 * FatSize(w) else FatSize(w)
  }

  /** Sectors in front of the data region: reserved ones, FAT copies, root directory. */
  function SystemArea(w: Sector): nat {
    Reserved(w) + FatArea(w) + RootEntries(w) / 16
  }

  /** The areas can be added up in 32 bits, and so can the sectors of the volume to its start. */
  predicate NoWrap(w: Sector, bsect: nat) {
    SystemArea(w) < WORD32 && bsect + TotalSectors(w) < WORD32
  }

  // ---- what a volume is ----

  /** g describes the volume at sector bsect that the parameter block lays out: reserved sectors, FAT copies, root
      directory and clusters one behind the other, as many clusters as there is room for, of the kind that goes with
      their number, and FAT copies that are large enough. */
  ghost predicate Legal(w: Sector, bsect: nat, g: Geometry) {
    && LdWord(w, 11) == 512
    && g.nFats == NumFats(w) && (g.nFats == 1 || g.nFats == 2)
    && g.csize == ClusterSectors(w) && OneBit(g.csize)
    && g.fsize == FatSize(w) && Reserved(w) > 0 && RootEntries(w) % 16 == 0
    && g.fatbase == bsect + Reserved(w) && g.database == bsect + SystemArea(w) && g.nSectors == bsect + TotalSectors(w)
    && g.nFatent >= 3
    && g.database + Times(g.csize, g.nFatent - 2) <= g.nSectors < g.database + Times(g.csize, g.nFatent - 1)
    && g.nFatent - 2 <= g.kind.MaxClusters()
    && (g.kind == Fat16 ==> g.nFatent - 2 > Fat12.MaxClusters())
    && (g.kind == Fat32 ==> g.nFatent - 2 > Fat16.MaxClusters())
    && (if g.kind == Fat32 then RootEntries(w) == 0 && LdWord(w, 42) == 0 else RootEntries(w) > 0)
    && g.kind.TableBytes(g.nFatent) <= g.fsize * 512
  }

  /** A legal volume has all that the driver relies on. */
  lemma LegalIsSane(w: Sector, bsect: nat, g: Geometry)
    requires Legal(w, bsect, g) && NoWrap(w, bsect)
    ensures g.Sane() && g.DataFits()
  {
  }

  datatype Mounted = NoFilesystem | DiskFailed | Volume(g: Geometry, dirbase: nat)

  function KindFor(nclst: nat): (k: FatKind)
    requires nclst <= Fat32.MaxClusters()
    ensures nclst <= k.MaxClusters()
    ensures k == Fat16 ==> nclst > Fat12.MaxClusters()
    ensures k == Fat32 ==> nclst > Fat16.MaxClusters()
  {
    if nclst <= Fat12.MaxClusters() then Fat12 else if nclst <= Fat16.MaxClusters() then Fat16 else Fat32
  }

  /** Number of clusters of a volume with sysect sectors in front of its data. */
  function ClusterCount(w: Sector, sysect: nat): nat
    requires ClusterSectors(w) > 0
  {
    if TotalSectors(w) < sysect then 0 else Quot(TotalSectors(w) - sysect, ClusterSectors(w))
  }

  /** The volume with fasize sectors of FAT copies and sysect sectors in front of its data, if its numbers go together. */
  function LaidOut(w: Sector, bsect: nat, fasize: nat, sysect: nat): Mounted
    requires ClusterSectors(w) > 0
  {
    var nclst := ClusterCount(w, sysect);
    if nclst == 0 || nclst > Fat32.MaxClusters() then NoFilesystem
    else
      var kind, fatbase := KindFor(nclst), Low32(bsect + Reserved(w));
      if (if kind == Fat32 then LdWord(w, 42) != 0 || RootEntries(w) != 0 else RootEntries(w) == 0)
         || FatSize(w) < (kind.TableBytes(nclst + 2) + 511) / 512
      then NoFilesystem
      else
        Volume(Geometry(kind, NumFats(w), ClusterSectors(w), nclst + 2, FatSize(w), fatbase, Low32(bsect + sysect),
                        bsect + TotalSectors(w)),
               if kind == Fat32 then LdDword(w, 44) else Low32(fatbase + fasize))
  }

  /** The volume the driver finds in the boot sector at bsect. */
  function FindVolume(w: Sector, bsect: nat): Mounted {
    if LdWord(w, 11) != 512 || (NumFats(w) != 1 && NumFats(w) != 2) || !OneBit(ClusterSectors(w))
       || RootEntries(w) % 16 != 0 || Reserved(w) == 0
    then NoFilesystem
    else
      var fasize := Low32(FatArea(w));
      LaidOut(w, bsect, fasize, Low32(Reserved(w) + fasize + RootEntries(w) / 16))
  }

  /** As many clusters as there is room for. */
  lemma CountFits(total: nat, sysect: nat, csize: nat, n: nat)
    requires csize > 0 && sysect <= total
    ensures Times(csize, Quot(total - sysect, csize)) <= total - sysect < Times(csize, Quot(total - sysect, csize) + 1)
    ensures Times(csize, n) <= total - sysect < Times(csize, n + 1) ==> n == Quot(total - sysect, csize)
  {
    QuotRem(total - sysect, csize);
    if Times(csize, n) <= total - sysect < Times(csize, n + 1) {
      QuotUnique(csize, n, total - sysect - Times(csize, n));
    }
  }

  /** A field that is 0 if its number is too large for it, and then to be found in a longer one. */
  function Field(w: Sector, short: nat, long: nat): nat
    requires short + 2 <= 512 && long + 4 <= 512
  {
    if Number(w, short, 2) != 0 then Number(w, short, 2) else Number(w, long, 4)
  }

  /** The volume in terms of the bytes of its boot sector: reserved sectors, FAT copies, root directory and clusters one
      behind the other. The root directory of a FAT32 volume is a chain, and dirbase its first cluster. */
  ghost predicate FromBytes(w: Sector, bsect: nat, g: Geometry, dirbase: nat) {
    && Number(w, 11, 2) == 512 && g.csize == w[13] && g.nFats == w[16]
    && g.fsize == Field(w, 22, 36)
    && g.nSectors == bsect + Field(w, 19, 32)
    && g.fatbase == bsect + Number(w, 14, 2)
    && g.database == g.fatbase + g.nFats * g.fsize + Number(w, 17, 2) * 32 / 512
    && dirbase == if g.kind.Fat32? then Number(w, 44, 4) else g.fatbase + g.nFats * g.fsize
  }

  /** What is found is a legal volume, with the numbers that are in the sector. */
  lemma FoundIsLegal(w: Sector, bsect: nat)
    requires NoWrap(w, bsect) && FindVolume(w, bsect).Volume?
    ensures var r := FindVolume(w, bsect); Legal(w, bsect, r.g) && FromBytes(w, bsect, r.g, r.dirbase)
  {
    CountFits(TotalSectors(w), SystemArea(w), ClusterSectors(w), 0);
    BlockFields(w);
  }

  lemma BlockFields(w: Sector)
    ensures LdWord(w, 11) == Number(w, 11, 2) && Reserved(w) == Number(w, 14, 2) && RootEntries(w) == Number(w, 17, 2)
    ensures FatSize(w) == Field(w, 22, 36) && TotalSectors(w) == Field(w, 19, 32)
    ensures LdWord(w, 42) == Number(w, 42, 2) && LdDword(w, 44) == Number(w, 44, 4)
  {
    FieldNumber(w, 11);
    FieldNumber(w, 14);
    FieldNumber(w, 17);
    FieldNumber(w, 19);
    FieldNumber(w, 22);
    FieldNumber(w, 32);
    FieldNumber(w, 36);
    FieldNumber(w, 42);
    FieldNumber(w, 44);
  }

  lemma FitsSectors(bytes: nat, sectors: nat)
    requires bytes <= sectors * 512
    ensures (bytes + 511) / 512 <= sectors
  {
  }

  /** A legal volume is found. */
  lemma LegalIsFound(w: Sector, bsect: nat, g: Geometry)
    requires NoWrap(w, bsect) && Legal(w, bsect, g)
    ensures FindVolume(w, bsect).Volume? && FindVolume(w, bsect).g == g
  {
    LegalIsLaidOut(w, bsect, g);
  }

  lemma LegalIsLaidOut(w: Sector, bsect: nat, g: Geometry)
    requires NoWrap(w, bsect) && Legal(w, bsect, g)
    ensures var r := LaidOut(w, bsect, FatArea(w), SystemArea(w)); r.Volume? && r.g == g
  {
    CountFits(TotalSectors(w), SystemArea(w), ClusterSectors(w), g.nFatent - 2);
    assert ClusterCount(w, SystemArea(w)) == g.nFatent - 2 && KindFor(g.nFatent - 2) == g.kind;
    FitsSectors(g.kind.TableBytes(g.nFatent), g.fsize);
  }

  /** For an accepted block, the geometry is that of the volume it lays out, with sector numbers that fit in 32 bits,
      exactly if the areas can be added up in 32 bits. */
  lemma LegalIffNoWrap(w: Sector, bsect: nat)
    requires FindVolume(w, bsect).Volume?
    ensures var g := FindVolume(w, bsect).g; Legal(w, bsect, g) && g.nSectors < WORD32 <==> NoWrap(w, bsect)
  {
    if NoWrap(w, bsect) {
      FoundIsLegal(w, bsect);
    }
  }

  // ---- finding the boot sector ----

  datatype Boot = IsFat | NotFat | NotBoot | Unreadable

  const FAT_NAME := [0x46, 0x41, 0x54]                // "FAT"
  const FAT32_NAME := [0x46, 0x41, 0x54, 0x33, 0x32]  // "FAT32"

  /** The sector is the boot sector of a FAT volume: signature, jump instruction and the name of the file system. */
  predicate BootSector(w: Sector) {
    && LdWord(w, 510) == 0xAA55
    && (w[0] == 0xE9 || (w[0] == 0xEB && w[2] == 0x90))
    && (w[54..57] == FAT_NAME || w[82..87] == FAT32_NAME)
  }

  /** So it begins with a short or a near jump, and has the name of the file system in one of two places. */
  lemma BootText(w: Sector)
    ensures BootSector(w) <==>
              && w[510] == 0x55 && w[511] == 0xAA
              && (w[0] == 0xE9 || (w[0] == 0xEB && w[2] == 0x90))
              && ((w[54] as char == 'F' && w[55] as char == 'A' && w[56] as char == 'T')
                  || (w[82] as char == 'F' && w[83] as char == 'A' && w[84] as char == 'T'
                      && w[85] as char == '3' && w[86] as char == '2'))
  {
    var a, b := w[54..57], w[82..87];
    assert a[0] == w[54] && a[1] == w[55] && a[2] == w[56];
    assert b[0] == w[82] && b[1] == w[83] && b[2] == w[84] && b[3] == w[85] && b[4] == w[86];
    assert a == FAT_NAME <==> a[0] == 0x46 && a[1] == 0x41 && a[2] == 0x54;
    assert b == FAT32_NAME <==> b[0] == 0x46 && b[1] == 0x41 && b[2] == 0x54 && b[3] == 0x33 && b[4] == 0x32;
  }

  /** What the driver takes a sector of the device for. */
  function CheckFs(disk: seq<Sector>, sect: nat): (b: Boot)
    ensures b == IsFat <==> sect < |disk| && BootSector(disk[sect])
    ensures b == NotFat ==> sect < |disk|
  {
    if sect >= |disk| then Unreadable
    else if LdWord(disk[sect], 510) != 0xAA55 then NotBoot
    else if BootSector(disk[sect]) then IsFat
    else NotFat
  }

  /** Where the i-th partition starts, 0 if there is none. */
  function PartitionStart(w: Sector, i: nat): nat
    requires i < 4
  {
    if w[446 + 16 * i + 4] != 0 then LdDword(w, 446 + 16 * i + 8) else 0
  }

  /** A partition table entry of 16 bytes has the kind of the partition, 0 for none, in byte 4 and its first sector in
      bytes 8 to 11; the table begins at byte 446. */
  lemma PartitionBytes(w: Sector, i: nat)
    requires i < 4
    ensures var e := w[446 + 16 * i..446 + 16 * i + 16];
            PartitionStart(w, i) == if e[4] == 0 then 0 else Number(e, 8, 4)
  {
    var e := w[446 + 16 * i..446 + 16 * i + 16];
    FieldNumber(e, 8);
    assert e[4] == w[446 + 16 * i + 4];
    assert e[8] == w[446 + 16 * i + 8] && e[9] == w[446 + 16 * i + 9];
    assert e[10] == w[446 + 16 * i + 10] && e[11] == w[446 + 16 * i + 11];
  }

  /** The i-th partition starts with the boot sector of a FAT volume. */
  predicate FatPartition(disk: seq<Sector>, i: nat)
    requires 0 < |disk| && i < 4
  {
    var at := PartitionStart(disk[0], i);
    at != 0 && CheckFs(disk, at) == IsFat
  }

  /** Where the driver expects the boot sector in the end: the first sector of the device unless that is a boot sector of
      something else, and then the first FAT partition, or the last entry of the table if there is none. */
  function BootAt(disk: seq<Sector>): nat {
    if CheckFs(disk, 0) != NotFat then 0
    else if FatPartition(disk, 0) then PartitionStart(disk[0], 0)
    else if FatPartition(disk, 1) then PartitionStart(disk[0], 1)
    else if FatPartition(disk, 2) then PartitionStart(disk[0], 2)
    else PartitionStart(disk[0], 3)
  }

  /** Look for a boot sector: the first sector of the device if it is one, or else that of the first FAT partition. */
  method FindBoot(disk: seq<Sector>) returns (bsect: nat, fmt: Boot)
    ensures CheckFs(disk, 0) != NotFat ==> bsect == 0 && fmt == CheckFs(disk, 0)
    ensures CheckFs(disk, 0) == NotFat ==>
              if exists i: nat :: i < 4 && FatPartition(disk, i)
              then && fmt == IsFat
                   && exists i: nat :: i < 4 && FatPartition(disk, i) && bsect == PartitionStart(disk[0], i)
                                       && forall j: nat :: j < i ==> !FatPartition(disk, j)
              else && bsect == PartitionStart(disk[0], 3)
                   && fmt == (if bsect == 0 then NotBoot else CheckFs(disk, bsect)) && fmt != IsFat
    ensures fmt == IsFat ==> bsect < |disk| && BootSector(disk[bsect])
    ensures bsect == BootAt(disk)
  {
    bsect, fmt := 0, CheckFs(disk, 0);
    if fmt == NotFat {
      var i := 0;
      while i < 4 && fmt != IsFat
        invariant i <= 4 && forall j: nat :: j < i && (j < i - 1 || fmt != IsFat) ==> !FatPartition(disk, j)
        invariant i == 0 ==> fmt == NotFat
        invariant i > 0 ==> bsect == PartitionStart(disk[0], i - 1)
        invariant i > 0 ==> fmt == if bsect == 0 then NotBoot else CheckFs(disk, bsect)
      {
        bsect := PartitionStart(disk[0], i);
        fmt := if bsect != 0 then CheckFs(disk, bsect) else NotBoot;
        i := i + 1;
      }
      if fmt == IsFat {
        assert FatPartition(disk, i - 1);
      }
    }
  }

  /** Mount the volume on a device. What is mounted is what the parameter block of its boot sector lays out, and the
      driver can work with it, unless the sums in the block wrap. */
  method Mount(disk: seq<Sector>) returns (r: Mounted, bsect: nat)
    ensures r.Volume? ==> bsect < |disk| && BootSector(disk[bsect]) && r == FindVolume(disk[bsect], bsect)
    ensures r.Volume? && NoWrap(disk[bsect], bsect) ==>
              && Legal(disk[bsect], bsect, r.g) && FromBytes(disk[bsect], bsect, r.g, r.dirbase)
              && r.g.Sane() && r.g.DataFits()
    ensures bsect == BootAt(disk)
    ensures r == if bsect == 0 && CheckFs(disk, 0) == NotFat then NoFilesystem
                 else match CheckFs(disk, bsect)
                   case IsFat => FindVolume(disk[bsect], bsect)
                   case Unreadable => DiskFailed
                   case _ => NoFilesystem
  {
    var fmt: Boot;
    bsect, fmt := FindBoot(disk);
    if fmt == Unreadable {
      return DiskFailed, bsect;
    }
    if fmt != IsFat {
      return NoFilesystem, bsect;
    }
    var w := disk[bsect];
    r := FindVolume(w, bsect);
    if r.Volume? && NoWrap(w, bsect) {
      FoundIsLegal(w, bsect);
      LegalIsSane(w, bsect, r.g);
    }
  }

  // ---- a diskette and a partitioned disk ----

  /** The boot sector of a diskette of 2880 sectors: one sector per cluster, one reserved sector, two FAT copies of nine
      sectors and a root directory of 224 entries. */
  function Diskette(): Sector {
    seq(512, i => if i == 0 then 0xEB else if i == 2 then 0x90 else if i == 12 || i == 16 then 2
                  else if i == 13 || i == 14 then 1 else if i == 17 then 224
                  else if i == 19 then 0x40 else if i == 20 then 0x0B else if i == 22 then 9
                  else if i == 54 then 0x46 else if i == 55 then 0x41 else if i == 56 then 0x54
                  else if i == 510 then 0x55 else if i == 511 then 0xAA else 0)
  }

  /** The boot sector of a FAT32 volume of 2^20 sectors: eight sectors per cluster, 32 reserved sectors, two FAT copies
      of 1024 sectors, and a root directory that begins in cluster 2. */
  function Fat32Boot(): Sector {
    seq(512, i => if i == 0 then 0xEB else if i == 2 then 0x90 else if i == 12 || i == 16 then 2
                  else if i == 13 then 8 else if i == 14 then 32 else if i == 34 then 0x10 else if i == 37 then 4
                  else if i == 44 then 2 else if i == 48 then 1 else if i == 50 then 6
                  else if i == 82 then 0x46 else if i == 83 then 0x41 else if i == 84 then 0x54
                  else if i == 85 then 0x33 else if i == 86 then 0x32
                  else if i == 510 then 0x55 else if i == 511 then 0xAA else 0)
  }

  /** A partition table whose second entry is a FAT32 partition at sector 2048. */
  function PartitionTable(): Sector {
    seq(512, i => if i == 466 then 0x0C else if i == 471 then 8
                  else if i == 510 then 0x55 else if i == 511 then 0xAA else 0)
  }

  lemma DisketteFields()
    ensures var w := Diskette();
            && BootSector(w) && LdWord(w, 11) == 512 && FatSize(w) == 9 && Reserved(w) == 1
            && RootEntries(w) == 224 && TotalSectors(w) == 2880 && ClusterSectors(w) == 1 && NumFats(w) == 2
  {
    assert Diskette()[54..57] == FAT_NAME;
  }

  /** The diskette has 2847 clusters of FAT12, its root directory at sector 19 and its data from sector 33 on. */
  lemma DisketteMounted()
    ensures BootSector(Diskette())
    ensures FindVolume(Diskette(), 0) == Volume(Geometry(Fat12, 2, 1, 2849, 9, 1, 33, 2880), 19)
  {
    DisketteFields();
    CountFits(2880, 33, 1, 2847);
    TimesIsProduct(1, 2847);
    TimesIsProduct(1, 2848);
  }

  lemma Fat32Fields()
    ensures var w := Fat32Boot();
            && BootSector(w) && LdWord(w, 11) == 512 && FatSize(w) == 1024 && Reserved(w) == 32
            && RootEntries(w) == 0 && TotalSectors(w) == 0x10_0000 && ClusterSectors(w) == 8 && NumFats(w) == 2
            && LdWord(w, 42) == 0 && LdDword(w, 44) == 2
  {
    assert Fat32Boot()[82..87] == FAT32_NAME;
  }

  /** The FAT32 volume at sector 2048 has 130812 clusters, its root directory in cluster 2, and its data from sector 4128
      on. */
  lemma Fat32Mounted()
    ensures BootSector(Fat32Boot())
    ensures FindVolume(Fat32Boot(), 2048) ==
            Volume(Geometry(Fat32, 2, 8, 130814, 1024, 2080, 4128, 0x10_0800), 2)
  {
    Fat32Fields();
    CountFits(0x10_0000, 2080, 8, 130812);
    TimesIsProduct(8, 130812);
    TimesIsProduct(8, 130813);
  }

  lemma SecondFound(disk: seq<Sector>)
    requires |disk| > 2048 && disk[0] == PartitionTable() && disk[2048] == Fat32Boot()
    ensures BootAt(disk) == 2048 && CheckFs(disk, 2048) == IsFat
  {
    Fat32Fields();
    var w := disk[0];
    assert LdWord(w, 510) == 0xAA55 && w[0] == 0;
    assert PartitionStart(w, 0) == 0;
    assert PartitionStart(w, 1) == 2048;
  }

  /** A disk with that table, whose second partition begins with that boot sector: it is found and mounted. */
  method MountSecond(gap: seq<Sector>, rest: seq<Sector>) returns (r: Mounted, bsect: nat)
    requires |gap| == 2047
    ensures bsect == 2048 && r == Volume(Geometry(Fat32, 2, 8, 130814, 1024, 2080, 4128, 0x10_0800), 2)
  {
    var disk := [PartitionTable()] + gap + [Fat32Boot()] + rest;
    assert disk[0] == PartitionTable() && disk[2048] == Fat32Boot();
    SecondFound(disk);
    Fat32Mounted();
    r, bsect := Mount(disk);
  }

  // ---- a block whose sums wrap ----

  /** A boot sector with two FAT copies of 2^31 sectors each. */
  function HugeFats(): Sector {
    seq(512, i => if i == 0 then 0xE9 else if i == 12 || i == 16 then 2 else if i == 13 || i == 14 then 1
                  else if i == 17 then 16 else if i == 19 then 100 else if i == 39 then 0x80
                  else if i == 54 then 0x46 else if i == 55 then 0x41 else if i == 56 then 0x54
                  else if i == 510 then 0x55 else if i == 511 then 0xAA else 0)
  }

  lemma HugeFatsFields()
    ensures var w := HugeFats();
            && BootSector(w) && LdWord(w, 11) == 512 && FatSize(w) == 0x8000_0000 && Reserved(w) == 1
            && RootEntries(w) == 16 && TotalSectors(w) == 100 && ClusterSectors(w) == 1 && NumFats(w) == 2
  {
    var w := HugeFats();
    assert w[54..57] == FAT_NAME;
  }

  /** Such a block is accepted although its areas cannot be added up: the sum of the FAT copies wraps to 0, and the
      root directory is taken to lie in the first FAT. */
  lemma HugeFatsAccepted()
    ensures BootSector(HugeFats()) && FindVolume(HugeFats(), 0).Volume? && !NoWrap(HugeFats(), 0)
    ensures var r := FindVolume(HugeFats(), 0); r.dirbase == r.g.fatbase && !r.g.Sane()
  {
    HugeFatsFields();
    CountFits(100, 2, 1, 98);
    TimesIsProduct(1, 98);
    TimesIsProduct(1, 99);
  }

  /** A device that starts with such a block is mounted. */
  method MountHugeFats(rest: seq<Sector>) returns (r: Mounted)
    ensures r.Volume? && r.dirbase == r.g.fatbase && !r.g.Sane()
  {
    HugeFatsAccepted();
    var bsect: nat;
    r, bsect := Mount([HugeFats()] + rest);
  }
}
