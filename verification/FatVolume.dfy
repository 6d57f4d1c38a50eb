/**
 A mounted FAT volume: the one-sector write-back window with FAT mirroring, FAT entry
 access through it, and cluster allocation and removal on top. Device reads and writes may
 fail at any time unless the device is declared reliable.
 */
module FatVolume {
  import opened Hiding
  import opened ByteSeqs
  import opened FatDisk
  import opened FatEntries
  import opened FatChains

  datatype FResult = Ok | DiskErr | IntErr | Denied

  class Volume {
    const g: Geometry
    const reliable: bool   // the device never fails on a sector it has
    const win: array<byte> // disk access window
    var disk: seq<Sector>  // the device
    var winsect: nat       // sector appearing in the window
    var wflag: bool        // window is dirty
    var lastClst: nat      // last allocated cluster (a hint)
    var freeClst: nat      // number of free clusters; beyond nFatent - 2 when unknown
    var fsiFlag: bool      // FSInfo is to be updated
    ghost var log: seq<Sector> // the logical disk
    ghost var fat: seq<nat>    // the file allocation table it holds

    ghost predicate Valid()
      reads this`disk, this`winsect, this`wflag, this`log, this`fat, win
    {
      && g.Sane()
      && win.Length == 512
      && |disk| == |log| == g.nSectors && |fat| == g.nFatent
      && (winsect < g.nSectors || winsect == NO_SECTOR)
      && forall k {:trigger Unfold(k)} :: Unfold(k) ==> Tied()
    }

    ghost predicate Tied()
      requires g.Sane() && |disk| == |log| == g.nSectors
      reads this`disk, this`winsect, this`wflag, this`log, this`fat, win
    {
      TiedOf(g, disk, wflag, winsect, win[..], log, fat)
    }

    /** The second FAT copy equals the first, but for the sector a dirty window still holds back. */
    ghost predicate Mirrored()
      requires Valid()
      reads this`disk, this`winsect, this`wflag, this`log, this`fat, win
    {
      MirrorOf(g, disk, wflag, winsect)
    }

    /** The count of free clusters, when the driver claims to know it, is right. */
    ghost predicate CountRight()
      requires |fat| >= 2
      reads this`freeClst, this`fat
    {
      freeClst <= g.nFatent - 2 ==> freeClst == FreeClusters(fat)
    }

    constructor (g: Geometry, disk: seq<Sector>, reliable: bool)
      requires g.Sane() && |disk| == g.nSectors
      ensures Valid() && fresh(win)
      ensures this.g == g && this.disk == disk && this.reliable == reliable && !wflag && winsect == NO_SECTOR
      ensures freeClst == lastClst == 0xFFFF_FFFF
      ensures log == disk && CountRight()
    {
      this.g := g;
      this.reliable := reliable;
      this.disk := disk;
      win := new byte[512](_ => 0);
      winsect, wflag := NO_SECTOR, false;
      lastClst, freeClst, fsiFlag := 0xFFFF_FFFF, 0xFFFF_FFFF, false;
      log := disk;
      fat := Entries(g.kind, Table(g, disk), g.nFatent);
    }

    // ---- the device ----

    /** Read one sector into a buffer; a failed read leaves the buffer arbitrary. */
    method DiskRead(dst: array<byte>, sector: nat) returns (ok: bool)
      requires dst.Length == 512
      modifies dst
      ensures ok ==> sector < |disk| && dst[..] == disk[sector]
      ensures reliable ==> (ok <==> sector < |disk|)
    {
      ok := sector < |disk|;
      if ok && !reliable {
        ok := *;
      }
      if ok {
        forall i | 0 <= i < 512 { dst[i] := disk[sector][i]; }
        assert dst[..] == disk[sector];
      } else if !reliable {
        var garbage: seq<byte> := *;
        if |garbage| == 512 {
          forall i | 0 <= i < 512 { dst[i] := garbage[i]; }
        }
      }
    }

    /** Write consecutive sectors; a failed write leaves arbitrary data in them and nowhere else. */
    method DiskWrite(sector: nat, data: seq<Sector>) returns (ok: bool)
      modifies this`disk
      ensures |disk| == |old(disk)|
      ensures ok ==> sector + |data| <= |disk| && disk == Replace(old(disk), sector, data)
      ensures forall s :: 0 <= s < |disk| && !(sector <= s < sector + |data|) ==> disk[s] == old(disk[s])
      ensures reliable ==> (ok <==> sector + |data| <= |disk|)
    {
      ok := sector + |data| <= |disk|;
      if ok {
        var written := data;
        if !reliable {
          ok := *;
          if !ok {
            written := *;
            if |written| != |data| { written := data; }
          }
        }
        disk := Replace(disk, sector, written);
      }
    }

    /** Read consecutive data sectors that the window does not hold. */
    method ReadData(sector: nat, n: nat) returns (ok: bool, data: seq<Sector>)
      requires Valid() && g.database <= sector && sector + n <= g.nSectors && !(sector <= winsect < sector + n)
      ensures ok ==> data == log[sector..sector + n]
      ensures reliable ==> ok
    {
      assert Unfold(0);
      ok, data := true, disk[sector..sector + n];
      if !reliable {
        ok := *;
        if !ok {
          data := *;
        }
      }
    }

    /** Load one data sector that the window does not hold. */
    method LoadData(dst: array<byte>, sector: nat) returns (ok: bool)
      requires Valid() && dst.Length == 512 && dst != win
      requires g.database <= sector < g.nSectors && sector != winsect
      modifies dst
      ensures ok ==> dst[..] == log[sector]
      ensures reliable ==> ok
    {
      assert Unfold(0);
      ok := DiskRead(dst, sector);
    }

    /** Write consecutive data sectors that the window does not hold. */
    method WriteData(sector: nat, data: seq<Sector>) returns (ok: bool)
      requires Valid() && g.database <= sector && sector + |data| <= g.nSectors
      requires !(sector <= winsect < sector + |data|)
      modifies this`disk, this`log
      ensures Valid()
      ensures ok ==> log == Replace(old(log), sector, data)
      ensures |log| == |old(log)|
      ensures forall s :: 0 <= s < |log| && !(sector <= s < sector + |data|) ==> log[s] == old(log)[s]
      ensures reliable ==> ok
    {
      ghost var before := disk;
      assert TiedOf(g, before, wflag, winsect, win[..], log, fat) by { assert Unfold(0); }
      ok := DiskWrite(sector, data);
      TiedWritten(g, before, disk, wflag, winsect, win[..], log, fat, sector, |data|);
      log := Replace(log, sector, disk[sector..sector + |data|]);
    }

    // ---- the window ----

    /** Copy a clean window that holds FAT data to the second FAT copy; a failure goes unnoticed. */
    method Reflect()
      requires Valid() && !wflag && winsect < g.nSectors
      modifies this`disk
      ensures Valid()
      ensures reliable && old(MirrorOf(g, disk, true, winsect)) ==> Mirrored()
    {
      assert Unfold(0);
      if MirrorOf(g, disk, true, winsect) { MirrorAfterReflect(g, disk, winsect); }
      Sub32InRange(winsect, g.fatbase, g.fsize);
      if Sub32(winsect, g.fatbase) < g.fsize {
        if g.nFats == 2 {
          ghost var before := disk;
          var _ := DiskWrite(winsect + g.fsize, [win[..]]);
          TiedReflected(g, before, disk, winsect, win[..], log, fat);
        }
      }
    }

    /** Write a dirty window back to its own sector. */
    method WriteBack() returns (ok: bool)
      requires Valid() && wflag
      modifies this`disk, this`wflag
      ensures Valid()
      ensures wflag == !ok
      ensures reliable ==> ok
      ensures ok && old(Mirrored()) ==> MirrorOf(g, disk, true, winsect)
    {
      assert Unfold(0);
      ghost var content: Sector := win[..];
      if Mirrored() { MirrorAfterWriteBack(g, disk, winsect, content); }
      ghost var before := disk;
      ok := DiskWrite(winsect, [win[..]]);
      TiedWrittenBack(g, before, disk, winsect, win[..], log, fat);
      wflag := !ok;
    }

    /** Write a dirty window back, and to the second FAT copy as well if it holds FAT data. The logical
        disk is the same before and after, however the device behaves. */
    method SyncWindow() returns (ok: bool)
      requires Valid()
      modifies this`disk, this`wflag
      ensures Valid() && log == old(log)
      ensures ok ==> !wflag
      ensures reliable ==> ok
      ensures reliable && old(Mirrored()) ==> Mirrored()
    {
      assert Unfold(0);
      ok := true;
      if wflag {
        ok := WriteBack();
        if ok {
          Reflect();
        }
      }
    }

    /** Bring a sector into the window, leaving the logical disk as it is. */
    method MoveWindow(sector: nat) returns (ok: bool)
      requires Valid()
      modifies this`disk, this`wflag, this`winsect, win
      ensures Valid() && log == old(log)
      ensures ok ==> winsect == sector
      ensures !ok ==> winsect == old(winsect) || winsect == NO_SECTOR
      ensures reliable && sector < g.nSectors ==> ok
      ensures reliable && old(Mirrored()) ==> Mirrored()
    {
      assert Unfold(0);
      ok := true;
      if sector != winsect {
        ok := SyncWindow();
        if ok {
          var got := DiskRead(win, sector);
          if !got {
            winsect := NO_SECTOR;
            ok := false;
          } else {
            winsect := sector;
          }
        }
      }
    }

    /** What the window shows is the logical sector; what the disk holds elsewhere is too. */
    lemma WindowShows(s: nat)
      requires Valid() && s < g.nSectors && !g.InMirror(s)
      ensures s == winsect ==> log[s] == win[..]
      ensures s != winsect || !wflag ==> log[s] == disk[s]
    {
      assert Unfold(0);
    }

    // ---- FAT entries ----

    /** Bring the FAT sector that holds byte o of the table into the window. */
    method MoveToFat(o: nat) returns (ok: bool)
      requires Valid() && o < g.fsize * 512
      modifies this`disk, this`wflag, this`winsect, win
      ensures Valid()
      ensures ok ==> winsect == g.fatbase + o / 512 && g.InFat(winsect)
      ensures ok ==> win[..] == log[winsect] && win[o % 512] == Table(g, log)[o]
      ensures !ok ==> (winsect == old(winsect) || winsect == NO_SECTOR) && !reliable
      ensures reliable && old(Mirrored()) ==> Mirrored()
    {
      TableByte(g, log, o);
      ok := MoveWindow(g.fatbase + o / 512);
      WindowShows(g.fatbase + o / 512);
    }

    method GetFat12(clst: nat) returns (val: nat)
      requires Valid() && g.IsCluster(clst) && g.kind.Fat12?
      modifies this`disk, this`wflag, this`winsect, win
      ensures Valid()
      ensures (val == fat[clst] <= g.kind.Mask() && g.InFat(winsect)) || (val == DISK_ERROR && !reliable)
      ensures winsect == old(winsect) || g.InFat(winsect) || winsect == NO_SECTOR
      ensures reliable && old(Mirrored()) ==> Mirrored()
    {
      val := DISK_ERROR;
      var bc := clst + clst / 2;
      assert bc + 2 <= g.fsize * 512 &&
             Value12(clst % 2 == 1, Table(g, log)[bc], Table(g, log)[bc + 1]) == fat[clst] <= g.kind.Mask() by {
        assert Unfold(0);
        EntryAt(g, log, fat, clst);
      }
      var ok := MoveToFat(bc);
      if ok {
        var wc: int := win[bc % 512];
        ok := MoveToFat(bc + 1);
        if ok {
          val := Value12(clst % 2 == 1, wc, win[(bc + 1) % 512]);
        }
      }
    }

    method GetFat16(clst: nat) returns (val: nat)
      requires Valid() && g.IsCluster(clst) && g.kind.Fat16?
      modifies this`disk, this`wflag, this`winsect, win
      ensures Valid()
      ensures (val == fat[clst] <= g.kind.Mask() && g.InFat(winsect)) || (val == DISK_ERROR && !reliable)
      ensures winsect == old(winsect) || g.InFat(winsect) || winsect == NO_SECTOR
      ensures reliable && old(Mirrored()) ==> Mirrored()
    {
      val := DISK_ERROR;
      WordEntry(g, log, clst);
      assert LdWord(Table(g, log), clst * 2) == fat[clst] <= g.kind.Mask() by {
        assert Unfold(0);
        EntryAt(g, log, fat, clst);
      }
      var ok := MoveToFat(clst * 2);
      if ok {
        val := LdWord(win[..], clst * 2 % 512);
      }
    }

    method GetFat32(clst: nat) returns (val: nat)
      requires Valid() && g.IsCluster(clst) && g.kind.Fat32?
      modifies this`disk, this`wflag, this`winsect, win
      ensures Valid()
      ensures (val == fat[clst] <= g.kind.Mask() && g.InFat(winsect)) || (val == DISK_ERROR && !reliable)
      ensures winsect == old(winsect) || g.InFat(winsect) || winsect == NO_SECTOR
      ensures reliable && old(Mirrored()) ==> Mirrored()
    {
      val := DISK_ERROR;
      DwordEntry(g, log, clst);
      assert LdDword(Table(g, log), clst * 4) % 0x1000_0000 == fat[clst] <= g.kind.Mask() by {
        assert Unfold(0);
        EntryAt(g, log, fat, clst);
      }
      var ok := MoveToFat(clst * 4);
      if ok {
        val := LdDword(win[..], clst * 4 % 512) % 0x1000_0000;
      }
    }

    /** Value of a FAT entry: 1 outside the table, DISK_ERROR if the device failed. */
    method GetFat(clst: nat) returns (val: nat)
      requires Valid()
      modifies this`disk, this`wflag, this`winsect, win
      ensures Valid()
      ensures !g.IsCluster(clst) ==> val == 1
      ensures g.IsCluster(clst) ==>
                (val == fat[clst] <= g.kind.Mask() && g.InFat(winsect)) || (val == DISK_ERROR && !reliable)
      ensures winsect == old(winsect) || g.InFat(winsect) || winsect == NO_SECTOR
      ensures reliable && old(Mirrored()) ==> Mirrored()
    {
      if !g.IsCluster(clst) {
        return 1;
      }
      match g.kind {
        case Fat12 => val := GetFat12(clst);
        case Fat16 => val := GetFat16(clst);
        case Fat32 => val := GetFat32(clst);
      }
    }

    /** Store bytes of the table in the window, which must show their sector. */
    method StoreFat(o: nat, bytes: seq<byte>, ghost fat': seq<nat>)
      requires Valid() && o < g.fsize * 512 && winsect == g.fatbase + o / 512
      requires o % 512 + |bytes| <= 512 && o + |bytes| <= g.fsize * 512
      requires |fat'| == g.nFatent && Represents(g.kind, Replace(Table(g, log), o, bytes), fat')
      modifies this`wflag, this`log, this`fat, win
      ensures Valid()
      ensures SameOffFat(g, old(log), log) && fat == fat'
      ensures Table(g, log) == Replace(old(Table(g, log)), o, bytes)
      ensures old(Mirrored()) ==> Mirrored()
    {
      assert Unfold(0);
      TableStore(g, log, o, bytes);
      WindowShows(winsect);
      ghost var content: Sector := Replace(win[..], o % 512, bytes);
      ShowsStored(g, disk, wflag, winsect, win[..], content, log);
      CopyInto(win, o % 512, bytes);
      wflag, log, fat := true, log[winsect := content], fat';
    }

    /** Rewrite one byte of the table. */
    method EditFat(o: nat, f: byte -> byte, ghost fat': seq<nat>) returns (ok: bool)
      requires Valid() && o < g.fsize * 512
      requires |fat'| == g.nFatent && Represents(g.kind, Table(g, log)[o := f(Table(g, log)[o])], fat')
      modifies this`disk, this`wflag, this`winsect, this`log, this`fat, win
      ensures Valid()
      ensures SameOffFat(g, old(log), log)
      ensures ok ==> g.InFat(winsect) && fat == fat'
      ensures ok ==> Table(g, log) == old(Table(g, log))[o := f(old(Table(g, log))[o])]
      ensures !ok ==> !reliable && log == old(log) && fat == old(fat)
      ensures winsect == old(winsect) || g.InFat(winsect) || winsect == NO_SECTOR
      ensures reliable && old(Mirrored()) ==> Mirrored()
    {
      ok := MoveToFat(o);
      if ok {
        var x := f(win[o % 512]);
        assert Replace(Table(g, log), o, [x]) == Table(g, log)[o := x];
        StoreFat(o, [x], fat');
      }
    }

    method PutFat12(clst: nat, val: nat) returns (ok: bool)
      requires Valid() && g.IsCluster(clst) && g.kind.Fat12?
      modifies this`disk, this`wflag, this`winsect, this`log, this`fat, win
      ensures Valid()
      ensures SameOffFat(g, old(log), log)
      ensures ok ==> g.InFat(winsect) && fat == old(fat)[clst := g.kind.Fit(val)]
      ensures ok ==> Table(g, log) == Stored(g.kind, old(Table(g, log)), clst, val)
      ensures !ok ==> !reliable && fat == old(fat)[clst := fat[clst]]
      ensures winsect == old(winsect) || g.InFat(winsect) || winsect == NO_SECTOR
      ensures reliable && old(Mirrored()) ==> Mirrored()
    {
      ghost var t, fat0 := Table(g, log), fat;
      var bc := clst + clst / 2;
      assert Represents(Fat12, t, fat) by { assert Unfold(0); }
      StoredInHalves(t, fat, clst, val);
      ghost var t1 := t[bc := Low12(clst % 2 == 1, t[bc], val)];
      ok := EditFat(bc, p => Low12(clst % 2 == 1, p, val), fat0[clst := Value(Fat12, t1, clst)]);
      if ok {
        ok := EditFat(bc + 1, p => High12(clst % 2 == 1, p, val), fat0[clst := val % 4096]);
      }
    }

    method PutFat16(clst: nat, val: nat) returns (ok: bool)
      requires Valid() && g.IsCluster(clst) && g.kind.Fat16?
      modifies this`disk, this`wflag, this`winsect, this`log, this`fat, win
      ensures Valid()
      ensures SameOffFat(g, old(log), log)
      ensures ok ==> g.InFat(winsect) && fat == old(fat)[clst := g.kind.Fit(val)]
      ensures ok ==> Table(g, log) == Stored(g.kind, old(Table(g, log)), clst, val)
      ensures !ok ==> !reliable && fat == old(fat)[clst := fat[clst]]
      ensures winsect == old(winsect) || g.InFat(winsect) || winsect == NO_SECTOR
      ensures reliable && old(Mirrored()) ==> Mirrored()
    {
      assert Represents(Fat16, Table(g, log), fat) by { assert Unfold(0); }
      StoredEntry(Fat16, Table(g, log), fat, clst, val);
      WordEntry(g, log, clst);
      ok := MoveToFat(clst * 2);
      if ok {
        StoreFat(clst * 2, WordBytes(val), fat[clst := val % 0x1_0000]);
      }
    }

    method PutFat32(clst: nat, val: nat) returns (ok: bool)
      requires Valid() && g.IsCluster(clst) && g.kind.Fat32?
      modifies this`disk, this`wflag, this`winsect, this`log, this`fat, win
      ensures Valid()
      ensures SameOffFat(g, old(log), log)
      ensures ok ==> g.InFat(winsect) && fat == old(fat)[clst := g.kind.Fit(val)]
      ensures ok ==> Table(g, log) == Stored(g.kind, old(Table(g, log)), clst, val)
      ensures !ok ==> !reliable && fat == old(fat)[clst := fat[clst]]
      ensures winsect == old(winsect) || g.InFat(winsect) || winsect == NO_SECTOR
      ensures reliable && old(Mirrored()) ==> Mirrored()
    {
      assert HoldsFat(g, log, fat) by { assert Unfold(0); }
      EntryInTable(g.kind, clst, g.nFatent);
      ok := MoveToFat(clst * 4);
      if ok {
        DwordStored(g, log, fat, clst, val, win[..]);
        var w := UnderReserved(LdDword(win[..], clst * 4 % 512), val);
        StoreFat(clst * 4, DwordBytes(w), fat[clst := val % 0x1000_0000]);
      }
    }

    /** Set a FAT entry. If the device fails, nothing but that entry can have been damaged. */
    method PutFat(clst: nat, val: nat) returns (res: FResult)
      requires Valid()
      modifies this`disk, this`wflag, this`winsect, this`log, this`fat, win
      ensures Valid()
      ensures SameOffFat(g, old(log), log)
      ensures !g.IsCluster(clst) ==> res == IntErr && log == old(log) && fat == old(fat)
      ensures g.IsCluster(clst) ==> res == Ok || (res == DiskErr && !reliable)
      ensures res == Ok ==> g.InFat(winsect) && fat == old(fat)[clst := g.kind.Fit(val)]
      ensures res == Ok && g.kind.Fat32? ==>
                forall d: nat :: d * 4 + 4 <= g.fsize * 512 ==>
                  ReservedBits(Table(g, log), d) == ReservedBits(old(Table(g, log)), d)
      ensures res == DiskErr ==> g.IsCluster(clst) && fat == old(fat)[clst := fat[clst]]
      ensures winsect == old(winsect) || g.InFat(winsect) || winsect == NO_SECTOR
      ensures reliable && old(Mirrored()) ==> Mirrored()
    {
      res := IntErr;
      if g.IsCluster(clst) {
        assert Represents(g.kind, Table(g, log), fat) by { assert Unfold(0); }
        StoredEntry(g.kind, Table(g, log), fat, clst, val);
        var ok: bool;
        match g.kind {
          case Fat12 => ok := PutFat12(clst, val);
          case Fat16 => ok := PutFat16(clst, val);
          case Fat32 => ok := PutFat32(clst, val);
        }
        res := if ok then Ok else DiskErr;
      }
    }

    // ---- cluster chains ----

    /** Search for a free cluster, from behind scl to the end of the table and on from its start up to scl. */
    method FindFree(scl: nat) returns (r: nat)
      requires Valid() && 1 <= scl < g.nFatent
      modifies this`disk, this`wflag, this`winsect, win
      ensures Valid()
      ensures r == SearchFrom(fat, scl, scl) || (r == DISK_ERROR && !reliable)
      ensures winsect == old(winsect) || g.InFat(winsect) || winsect == NO_SECTOR
      ensures reliable && old(Mirrored()) ==> Mirrored()
    {
      var ncl := scl;
      while true
        invariant Valid()
        invariant winsect == old(winsect) || g.InFat(winsect) || winsect == NO_SECTOR
        invariant reliable && old(Mirrored()) ==> Mirrored()
        invariant 1 <= ncl < g.nFatent && SearchFrom(fat, scl, ncl) == SearchFrom(fat, scl, scl)
        decreases if ncl >= scl then 2 * g.nFatent - ncl else scl - ncl
      {
        ncl := ncl + 1;
        if ncl >= g.nFatent {
          ncl := 2;
          if ncl > scl {
            return 0;
          }
        }
        var cs := GetFat(ncl);
        if cs == 0 {
          return ncl;
        }
        if cs == 1 || cs == DISK_ERROR {
          return cs;
        }
        if ncl == scl {
          return 0;
        }
      }
    }

    /** ncl is the cluster right behind clst if that is free, and else the first free one behind the last one taken, or
        behind clst if there is none. */
    ghost predicate PlacedBehind(clst: nat, ncl: nat)
      requires g.nFatent == |fat| && g.nFatent >= 3 && clst < g.nFatent
      reads this`fat, this`lastClst
    {
      var next := if clst + 1 >= g.nFatent then 2 else clst + 1;
      if fat[next] == 0 then ncl == next
      else Nearest(fat, if 2 <= lastClst < g.nFatent then lastClst else clst, ncl)
    }

    /** Where to put the next cluster of a chain ending in clst: right behind it if possible, and else at the first free
        place behind the cluster taken last. */
    method PlaceBehind(clst: nat) returns (ncl: nat)
      requires Valid() && g.IsCluster(clst)
      modifies this`disk, this`wflag, this`winsect, win
      ensures Valid()
      ensures ncl == DISK_ERROR ==> !reliable
      ensures ncl != DISK_ERROR ==> FreeOutcome(fat, ncl)
      ensures g.IsCluster(ncl) ==> PlacedBehind(clst, ncl)
      ensures winsect == old(winsect) || g.InFat(winsect) || winsect == NO_SECTOR
      ensures reliable && old(Mirrored()) ==> Mirrored()
    {
      ncl := clst + 1;
      if ncl >= g.nFatent {
        ncl := 2;
      }
      var cs := GetFat(ncl);
      if cs == 1 || cs == DISK_ERROR {
        assert cs == 1 ==> InTable(fat, ncl);
        return cs;
      }
      if cs != 0 {
        var scl := if 2 <= lastClst < g.nFatent then lastClst else clst;
        SearchMeans(fat, scl, scl);
        ncl := FindFree(scl);
      }
    }

    /** Take a free cluster for a chain and link it behind clst unless clst is 0. */
    method Take(clst: nat, ncl: nat) returns (res: FResult)
      requires Valid() && g.IsCluster(ncl) && fat[ncl] == 0 && (clst == 0 || g.IsCluster(clst))
      modifies this`disk, this`wflag, this`winsect, this`log, this`fat, win
      ensures Valid()
      ensures SameOffFat(g, old(log), log)
      ensures res == Ok ==> g.InFat(winsect) && fat == Linked(old(fat), clst, ncl, g.kind.Mask())
      ensures res != Ok ==> res == DiskErr && !reliable
      ensures winsect == old(winsect) || g.InFat(winsect) || winsect == NO_SECTOR
      ensures reliable && old(Mirrored()) ==> Mirrored()
    {
      assert g.kind.Fit(0xFFFF_FFFF) == g.kind.Mask();
      res := PutFat(ncl, 0xFFFF_FFFF);
      if res == Ok && clst != 0 {
        assert g.kind.Fit(ncl) == ncl;
        res := PutFat(clst, ncl);
      }
    }

    /** ncl is the cluster to take for a chain ending in clst, or for a new chain if clst is 0: then it is the first free
        one behind the last one taken. */
    ghost predicate Fitting(clst: nat, ncl: nat)
      requires g.nFatent == |fat| && g.nFatent >= 3 && clst < g.nFatent
      reads this`fat, this`lastClst
    {
      if clst == 0 then Nearest(fat, if lastClst == 0 || lastClst >= g.nFatent then 1 else lastClst, ncl)
      else PlacedBehind(clst, ncl)
    }

    /** Choose a free cluster for a chain ending in clst, or for a new chain if clst is 0. */
    method Choose(clst: nat) returns (ncl: nat)
      requires Valid() && (clst == 0 || g.IsCluster(clst))
      modifies this`disk, this`wflag, this`winsect, win
      ensures Valid()
      ensures ncl == DISK_ERROR ==> !reliable
      ensures ncl != DISK_ERROR ==> FreeOutcome(fat, ncl)
      ensures g.IsCluster(ncl) ==> Fitting(clst, ncl)
      ensures winsect == old(winsect) || g.InFat(winsect) || winsect == NO_SECTOR
      ensures reliable && old(Mirrored()) ==> Mirrored()
    {
      if clst == 0 {
        var scl := if lastClst == 0 || lastClst >= g.nFatent then 1 else lastClst;
        SearchMeans(fat, scl, scl);
        ncl := FindFree(scl);
      } else {
        ncl := PlaceBehind(clst);
      }
    }

    /** Keep the allocation hint and the count of free clusters after ncl has been taken. */
    method NoteTaken(ncl: nat)
      requires freeClst > 0
      modifies this`lastClst, this`freeClst, this`fsiFlag
      ensures lastClst == ncl && fsiFlag
      ensures freeClst == if old(freeClst) <= g.nFatent - 2 then old(freeClst) - 1 else old(freeClst)
    {
      lastClst := ncl;
      if freeClst <= g.nFatent - 2 {
        freeClst := freeClst - 1;
      }
      fsiFlag := true;
    }

    /** Take a free cluster for a chain ending in clst, or for a new chain if clst is 0. */
    method Allocate(clst: nat) returns (r: nat)
      requires Valid() && (clst == 0 || EndOfChain(fat, clst))
      modifies this, win
      ensures Valid()
      ensures SameOffFat(g, old(log), log)
      ensures r == 0 || r == 1 || g.IsCluster(r) || (r == DISK_ERROR && !reliable)
      ensures r == 0 || r == 1 ==> log == old(log) && fat == old(fat)
      ensures r == 0 && old(CountRight()) ==> NoneFree(fat, 2, g.nFatent)
      ensures r == 1 ==> HasOne(fat)
      ensures r != DISK_ERROR && HasOne(fat) ==> HasOne(old(fat))
      ensures g.IsCluster(r) ==>
                old(fat)[r] == 0 && fat == Linked(old(fat), clst, r, g.kind.Mask()) && g.InFat(winsect)
      ensures g.IsCluster(r) ==> old(Fitting(clst, r)) && lastClst == r
      ensures old(CountRight()) && r != DISK_ERROR ==> CountRight()
      ensures winsect == old(winsect) || g.InFat(winsect) || winsect == NO_SECTOR
      ensures reliable && old(Mirrored()) ==> Mirrored()
    {
      r := 0;
      ZerosNone(fat, 2, g.nFatent);
      if freeClst != 0 {
        r := Choose(clst);
        if g.IsCluster(r) {
          TakenCount(fat, clst, r, g.kind.Mask());
          LinkedHasNoNewOne(fat, clst, r, g.kind.Mask());
          var res := Take(clst, r);
          if res == Ok {
            NoteTaken(r);
          } else {
            r := DISK_ERROR;
          }
        }
      }
    }

    /** Stretch the chain that ends in clst, or start a chain if clst is 0. The outcome is the cluster
        that now follows clst, 0 if no cluster is free, 1 on an inconsistency, or DISK_ERROR. */
    method CreateChain(clst: nat) returns (r: nat)
      requires Valid()
      modifies this, win
      ensures Valid()
      ensures SameOffFat(g, old(log), log)
      ensures r == 0 || r == 1 || g.IsCluster(r) || (r == DISK_ERROR && !reliable)
      ensures r == 0 || r == 1 ==> log == old(log) && fat == old(fat)
      ensures r == 0 ==> clst == 0 || EndOfChain(fat, clst)
      ensures r == 0 && old(CountRight()) ==> NoneFree(fat, 2, g.nFatent)
      ensures r == 1 ==> (clst != 0 && !(g.IsCluster(clst) && fat[clst] >= 2)) || HasOne(fat)
      ensures r != DISK_ERROR && HasOne(fat) ==> HasOne(old(fat))
      ensures g.IsCluster(r) ==>
                || (clst != 0 && g.IsCluster(clst) && old(fat)[clst] == r && fat == old(fat) && log == old(log))
                || (&& old(fat)[r] == 0 && (clst == 0 || EndOfChain(old(fat), clst))
                    && old(Fitting(clst, r)) && lastClst == r
                    && fat == Linked(old(fat), clst, r, g.kind.Mask()) && g.InFat(winsect))
      ensures old(CountRight()) && r != DISK_ERROR ==> CountRight()
      ensures winsect == old(winsect) || g.InFat(winsect) || winsect == NO_SECTOR
      ensures reliable && old(Mirrored()) ==> Mirrored()
    {
      if clst != 0 {
        var cs := GetFat(clst);
        if cs < 2 {
          return 1;
        }
        if cs == DISK_ERROR || cs < g.nFatent {
          return cs;
        }
      }
      r := Allocate(clst);
    }

    /** Keep the count of free clusters after a cluster has been freed. */
    method NoteFreed()
      modifies this`freeClst, this`fsiFlag
      ensures freeClst == if old(freeClst) < g.nFatent - 2 then old(freeClst) + 1 else old(freeClst)
    {
      if freeClst < g.nFatent - 2 {
        freeClst := freeClst + 1;
        fsiFlag := true;
      }
    }

    /** Free one cluster and tell what its entry held; an entry holding 0 or 1 is left alone. */
    method FreeOne(clst: nat) returns (nxt: nat)
      requires Valid() && g.IsCluster(clst)
      modifies this, win
      ensures Valid()
      ensures SameOffFat(g, old(log), log)
      ensures nxt != DISK_ERROR ==> nxt == old(fat)[clst] && g.InFat(winsect)
      ensures nxt != DISK_ERROR ==> fat == if nxt < 2 then old(fat) else old(fat)[clst := 0]
      ensures nxt == DISK_ERROR ==> !reliable
      ensures old(CountRight()) && nxt != DISK_ERROR ==> CountRight()
      ensures winsect == old(winsect) || g.InFat(winsect) || winsect == NO_SECTOR
      ensures reliable && old(Mirrored()) ==> Mirrored()
    {
      nxt := GetFat(clst);
      if nxt >= 2 && nxt != DISK_ERROR {
        ZerosStep(fat, 2, g.nFatent, clst, 0);
        assert g.kind.Fit(0) == 0;
        var res := PutFat(clst, 0);
        if res == Ok {
          NoteFreed();
        } else {
          nxt := DISK_ERROR;
        }
      }
    }

    /** Follow the links from start, freeing each cluster; an entry holding 1 stops it. */
    method FreeLinks(start: nat) returns (res: FResult)
      requires Valid() && g.IsCluster(start)
      modifies this, win
      ensures Valid()
      ensures SameOffFat(g, old(log), log)
      ensures res == Ok || res == IntErr || (res == DiskErr && !reliable)
      ensures res != DiskErr ==> fat == Removed(old(fat), start) && (res == IntErr <==> EndsAtOne(old(fat), start))
      ensures res != DiskErr ==> g.InFat(winsect)
      ensures old(CountRight()) && res != DiskErr ==> CountRight()
      ensures winsect == old(winsect) || g.InFat(winsect) || winsect == NO_SECTOR
      ensures reliable && old(Mirrored()) ==> Mirrored()
    {
      var clst := start;
      while true
        invariant Valid() && g.IsCluster(clst)
        invariant SameOffFat(g, old(log), log)
        invariant Removed(fat, clst) == Removed(old(fat), start)
        invariant EndsAtOne(fat, clst) <==> EndsAtOne(old(fat), start)
        invariant old(CountRight()) ==> CountRight()
        invariant winsect == old(winsect) || g.InFat(winsect)
        invariant reliable && old(Mirrored()) ==> Mirrored()
        decreases InUse(fat)
      {
        InUseStep(fat, clst, 0);
        var nxt := FreeOne(clst);
        if nxt == DISK_ERROR {
          return DiskErr;
        }
        if nxt == 1 {
          return IntErr;
        }
        if nxt == 0 || nxt >= g.nFatent {
          return Ok;
        }
        clst := nxt;
      }
    }

    /** Remove the clusters from clst on; their predecessor, unless it is 0, becomes the last of its chain. */
    method RemoveChain(clst: nat, pclst: nat) returns (res: FResult)
      requires Valid()
      modifies this, win
      ensures Valid()
      ensures SameOffFat(g, old(log), log)
      ensures res == Ok || res == IntErr || (res == DiskErr && !reliable)
      ensures !(g.IsCluster(clst) && (pclst == 0 || g.IsCluster(pclst))) ==> res == IntErr && fat == old(fat)
      ensures g.IsCluster(clst) && (pclst == 0 || g.IsCluster(pclst)) && res != DiskErr ==>
                && fat == Cut(old(fat), clst, pclst, g.kind.Mask())
                && (res == IntErr <==> EndsAtOne(Marked(old(fat), pclst, g.kind.Mask()), clst))
                && g.InFat(winsect)
      ensures old(CountRight()) && res != DiskErr && (g.IsCluster(pclst) ==> old(fat)[pclst] != 0) ==> CountRight()
      ensures winsect == old(winsect) || g.InFat(winsect) || winsect == NO_SECTOR
      ensures reliable && old(Mirrored()) ==> Mirrored()
    {
      if !g.IsCluster(clst) {
        return IntErr;
      }
      if pclst != 0 {
        assert g.kind.Fit(0xFFFF_FFFF) == g.kind.Mask();
        if g.IsCluster(pclst) { ZerosStep(fat, 2, g.nFatent, pclst, g.kind.Mask()); }
        res := PutFat(pclst, 0xFFFF_FFFF);
        if res != Ok {
          return res;
        }
      }
      res := FreeLinks(clst);
    }

    // ---- counting free clusters ----

    /** Count free clusters entry by entry, as done on FAT12. */
    method ScanEntries() returns (res: FResult, nfree: nat)
      requires Valid()
      modifies this`disk, this`wflag, this`winsect, win
      ensures Valid()
      ensures res == Ok ==> nfree == FreeClusters(fat)
      ensures res == IntErr ==> HasOne(fat)
      ensures res != Ok ==> res == IntErr || (res == DiskErr && !reliable)
      ensures reliable && old(Mirrored()) ==> Mirrored()
    {
      nfree := 0;
      var clst := 2;
      while clst < g.nFatent
        invariant Valid() && 2 <= clst <= g.nFatent
        invariant nfree == Zeros(fat, 2, clst)
        invariant reliable && old(Mirrored()) ==> Mirrored()
      {
        var stat := GetFat(clst);
        if stat == DISK_ERROR {
          return DiskErr, nfree;
        }
        if stat == 1 {
          assert InTable(fat, clst);
          return IntErr, nfree;
        }
        if stat == 0 {
          nfree := nfree + 1;
        }
        clst := clst + 1;
      }
      res := Ok;
    }

    /** Whether the entry at offset i of the window, which is entry c of the table, is 0. */
    method IsZero(i: nat, ghost c: nat) returns (zero: bool)
      requires Valid() && !g.kind.Fat12? && c < g.nFatent
      requires winsect == g.fatbase + EntryOffset(g.kind, c) / 512 && i == EntryOffset(g.kind, c) % 512
      ensures zero <==> fat[c] == 0
    {
      assert Unfold(0);
      EntryAt(g, log, fat, c);
      if g.kind.Fat16? {
        WordEntry(g, log, c);
        WindowShows(winsect);
        zero := LdWord(win[..], i) == 0;
      } else {
        DwordEntry(g, log, c);
        WindowShows(winsect);
        zero := LdDword(win[..], i) % 0x1000_0000 == 0;
      }
    }

    /** Load the sector that holds entry c of the table if it starts there, and tell whether the entry is 0. */
    method ReadsZero(i: nat, sect: nat, ghost c: nat) returns (ok: bool, zero: bool)
      requires Valid() && !g.kind.Fat12? && c < g.nFatent
      requires sect == g.fatbase + EntryOffset(g.kind, c) / 512 && i == EntryOffset(g.kind, c) % 512
      requires i != 0 ==> winsect == sect
      modifies this`disk, this`wflag, this`winsect, win
      ensures Valid()
      ensures ok ==> winsect == sect && (zero <==> fat[c] == 0)
      ensures reliable ==> ok
      ensures reliable && old(Mirrored()) ==> Mirrored()
    {
      EntryInTable(g.kind, c, g.nFatent);
      ok, zero := true, false;
      if i == 0 {
        ok := MoveWindow(sect);
      }
      if ok {
        zero := IsZero(i, c);
      }
    }

    /** Count zero entries sector by sector from the top of the FAT, as done on FAT16 and FAT32. */
    method ScanSectors() returns (res: FResult, nfree: nat)
      requires Valid() && !g.kind.Fat12?
      modifies this`disk, this`wflag, this`winsect, win
      ensures Valid()
      ensures res == Ok ==> nfree == Zeros(fat, 0, g.nFatent)
      ensures res != Ok ==> res == DiskErr && !reliable
      ensures reliable && old(Mirrored()) ==> Mirrored()
    {
      nfree := 0;
      var clst, sect, i := g.nFatent, g.fatbase, 0;
      ghost var c := 0;
      while clst > 0
        invariant Valid() && 0 <= c == g.nFatent - clst <= g.nFatent
        invariant nfree == Zeros(fat, 0, c)
        invariant sect == g.fatbase + EntryOffset(g.kind, c) / 512 && i == EntryOffset(g.kind, c) % 512
        invariant i != 0 ==> winsect == sect
        invariant reliable && old(Mirrored()) ==> Mirrored()
        decreases clst
      {
        var ok, zero := ReadsZero(i, sect, c);
        if !ok {
          return DiskErr, nfree;
        }
        assert Zeros(fat, 0, c + 1) == Zeros(fat, 0, c) + if zero then 1 else 0;
        if zero {
          nfree := nfree + 1;
        }
        NextOffset(g.kind, c);
        i := (i + if g.kind.Fat16? then 2 else 4) % 512;
        if i == 0 {
          sect := sect + 1;
        }
        clst, c := clst - 1, c + 1;
      }
      res := Ok;
    }

    /** Number of free clusters: the count kept, or else a scan of the table. */
    method GetFree() returns (res: FResult, nclst: nat)
      requires Valid()
      modifies this, win
      ensures Valid() && log == old(log) && fat == old(fat)
      ensures res == Ok && old(freeClst) <= g.nFatent - 2 ==> nclst == old(freeClst) == freeClst
      ensures res == Ok && old(freeClst) > g.nFatent - 2 ==>
                nclst == freeClst == FreeClusters(fat) + if g.kind.Fat12? then 0 else Zeros(fat, 0, 2)
      ensures res == Ok && old(CountRight()) && (g.kind.Fat12? || NoneFree(fat, 0, 2)) ==>
                nclst == FreeClusters(fat) && CountRight()
      ensures res == Ok || (res == IntErr && HasOne(fat)) || (res == DiskErr && !reliable)
      ensures reliable && old(Mirrored()) ==> Mirrored()
    {
      res, nclst := Ok, freeClst;
      if freeClst > g.nFatent - 2 {
        ZerosSplit(fat, 0, 2, g.nFatent);
        ZerosNone(fat, 0, 2);
        if g.kind.Fat12? {
          res, nclst := ScanEntries();
        } else {
          res, nclst := ScanSectors();
        }
        KeepCount(nclst);
      }
    }

    method KeepCount(n: nat)
      modifies this`freeClst, this`fsiFlag
      ensures freeClst == n && fsiFlag
    {
      freeClst, fsiFlag := n, true;
    }
  }
}
