/**
 An open file on a FAT volume: reading, writing, seeking and truncating through a private
 one-sector buffer and direct transfers of whole sectors. The file is its bytes and a cursor.
 */
module FatFile {
  import opened Hiding
  import opened ByteSeqs
  import opened FatDisk
  import opened FatChains
  import opened FatLayout
  import opened FatFileState
  import opened FatVolume

  class File {
    const vol: Volume
    const buf: array<byte> // private sector buffer
    const canRead: bool
    const canWrite: bool
    var sclust: nat        // first cluster, 0 if none
    var objsize: nat       // file size
    var fptr: nat          // read/write pointer
    var clust: nat         // cluster of the byte before fptr
    var sect: nat          // sector in the buffer, 0 if none
    var dirty: bool        // buffer needs to be written back
    var modified: bool     // directory entry needs an update
    var err: FResult       // sticky error
    ghost var chain: seq<nat>             // the clusters of the file
    ghost var secs: seq<Sector>           // its sectors
    ghost var slot: nat                   // file sector in a dirty buffer
    ghost var content: seq<byte>          // its bytes
    ghost const others: map<nat, Kept>    // what allocated clusters outside the file hold
    ghost const below: seq<Sector>        // what the sectors before the data region hold
    ghost const room: nat                 // clusters the file has or could have

    ghost function View(): State
      requires buf.Length == 512
      reads this`sclust, this`sect, this`dirty, this`chain, this`secs, this`slot, buf
      reads vol`winsect, vol`log, vol`fat
    {
      State(vol.g, vol.fat, vol.log, vol.winsect, chain, secs, sclust, sect, dirty, slot, buf[..], others, below, room)
    }

    /** What holds even after an error: the volume is in order, and a dirty buffer can be written to a data sector. */
    ghost predicate Shell()
      reads this`sect, this`dirty, vol`disk, vol`winsect, vol`wflag, vol`log, vol`fat, vol.win
    {
      && vol.Valid() && buf.Length == 512 && buf != vol.win
      && (dirty ==> vol.g.database <= sect < vol.g.nSectors && sect != vol.winsect)
    }

    /** All that holds of the file apart from its cursor. */
    ghost predicate Core()
      reads this`sclust, this`objsize, this`fptr, this`sect, this`dirty, this`chain, this`secs, this`slot, this`content, buf
      reads vol`disk, vol`winsect, vol`wflag, vol`log, vol`fat, vol.win
    {
      && Shell()
      && vol.g.DataFits() && Clusters(vol.g, chain) && |secs| == Times(vol.g.csize, |chain|)
      && fptr <= objsize <= |secs| * 512 && objsize <= 0xFFFF_FFFF
      && |content| == objsize
      && forall k {:trigger Look(k)} :: Look(k) ==> View().Ok() && content == Bytes(secs, objsize)
    }

    /** The current cluster is that of the byte before the pointer, and inside a sector the buffer holds it. */
    ghost predicate CursorOk()
      requires vol.g.csize > 0 && Clusters(vol.g, chain)
      reads this`fptr, this`clust, this`sect, this`chain
    {
      CursorAt(vol.g, chain, fptr, clust, sect)
    }

    ghost predicate Open()
      reads this`sclust, this`objsize, this`fptr, this`sect, this`dirty, this`chain, this`secs, this`slot, this`content, buf
      reads this`clust, vol`disk, vol`winsect, vol`wflag, vol`log, vol`fat, vol.win
    {
      Core() && CursorOk()
    }

    /** A buffer that differs from the disk is a change that is still to be reported to the directory. After an
        error the file refuses all further work but a last synchronization, and nothing is promised of its bytes. */
    ghost predicate Valid()
      reads this, buf, vol`disk, vol`winsect, vol`wflag, vol`log, vol`fat, vol.win
    {
      Shell() && (err == Ok ==> Open() && (dirty ==> modified))
    }

    /** Open the file whose first cluster and size are given; chain is the chain that starts there. Its bytes are those
        that the links of the table lead to. */
    constructor (vol: Volume, canRead: bool, canWrite: bool, sclust: nat, objsize: nat, ghost chain: seq<nat>)
      requires vol.Valid() && vol.g.DataFits()
      requires sclust == (if chain == [] then 0 else chain[0]) && (chain != [] ==> IsChain(vol.fat, chain))
      requires Clusters(vol.g, chain) && WindowOff(vol.g, chain, vol.winsect)
      requires objsize <= Times(vol.g.csize, |chain|) * 512 && objsize <= 0xFFFF_FFFF
      ensures this.vol == vol && this.chain == chain && this.objsize == objsize && fptr == 0 && err == Ok
      ensures this.canRead == canRead && this.canWrite == canWrite
      ensures content == Bytes(SectorsOf(vol.g, vol.log, chain), objsize) && Open() && Valid() && fresh(buf)
      ensures OnVolume(vol.g, vol.fat, vol.log, sclust, content)
      ensures forall c :: vol.g.IsCluster(c) && c !in chain && vol.fat[c] != 0 ==> c in others
      ensures room == |chain| + FreeClusters(vol.fat)
    {
      this.vol := vol;
      this.canRead, this.canWrite := canRead, canWrite;
      this.sclust, this.objsize, fptr, clust, sect := sclust, objsize, 0, 0, 0;
      dirty, modified, err := false, false, Ok;
      buf := new byte[512](_ => 0);
      this.chain, secs, slot := chain, SectorsOf(vol.g, vol.log, chain), 0;
      content := Bytes(SectorsOf(vol.g, vol.log, chain), objsize);
      others := Outside(vol.g, vol.fat, vol.log, chain);
      below := vol.log[..vol.g.database];
      room := |chain| + FreeClusters(vol.fat);
      new;
      ChainOnVolume(vol.g, vol.fat, vol.log, chain, objsize);
      OpenedOk(vol.g, vol.fat, vol.log, vol.winsect, chain, buf[..]);
      assert View() == Opened(vol.g, vol.fat, vol.log, vol.winsect, chain, buf[..]);
    }

    // ---- the sector buffer ----

    /** Write the dirty buffer back. */
    method Flush() returns (ok: bool)
      requires Core() && dirty
      modifies this`dirty, vol`disk, vol`log
      ensures Core()
      ensures dirty == !ok
      ensures vol.reliable ==> ok
    {
      assert Look(0);
      ghost var v := View();
      ok := vol.WriteData(sect, [buf[..]]);
      Flushed(v, vol.log);
      dirty := !ok;
    }

    /** Write the buffer back if it is dirty. */
    method Clean() returns (ok: bool)
      requires Core()
      modifies this`dirty, vol`disk, vol`log
      ensures Core() && (ok ==> !dirty) && (dirty ==> old(dirty))
      ensures vol.reliable ==> ok
    {
      ok := true;
      if dirty {
        ok := Flush();
      }
    }

    /** Load file sector q, which is disk sector s, into the clean buffer. */
    method Fetch(s: nat, ghost q: nat) returns (ok: bool)
      requires Core() && !dirty && q < |secs| && IsSlot(vol.g, chain, q, s)
      modifies this`sect, buf
      ensures Shell() && (ok ==> Core() && sect == s)
      ensures vol.reliable ==> ok
    {
      assert Look(0);
      ghost var v := View();
      Loaded(v, q, v.buf);
      ok := vol.LoadData(buf, s);
      if ok {
        Loaded(v, q, buf[..]);
        sect := s;
      }
    }

    // ---- reading ----

    /** Read a FAT entry of the volume. */
    method Entry(c: nat) returns (val: nat)
      requires Core() && vol.g.IsCluster(c)
      modifies vol`disk, vol`wflag, vol`winsect, vol.win
      ensures Core()
      ensures val == vol.fat[c] < DISK_ERROR || (val == DISK_ERROR && !vol.reliable)
    {
      assert Look(0);
      ghost var v := View();
      val := vol.GetFat(c);
      WindowMoved(v, vol.winsect);
    }

    /** At a cluster boundary, the cluster that holds the byte at the pointer. */
    method ClusterForRead() returns (clst: nat)
      requires Open() && fptr < objsize && fptr % 512 == 0 && Rem(fptr / 512, vol.g.csize) == 0
      modifies vol`disk, vol`wflag, vol`winsect, vol.win
      ensures Core()
      ensures InCluster(vol.g, chain, fptr, clst) || (clst == DISK_ERROR && !vol.reliable)
    {
      ghost var k := Quot(fptr / 512, vol.g.csize);
      SectorInChain(vol.g, chain, fptr / 512);
      assert chain[0] == sclust && (k > 0 ==> vol.fat[chain[k - 1]] == chain[k]) by { assert Look(0); }
      clst := sclust;
      if fptr != 0 {
        BoundaryCluster(vol.g, fptr);
        clst := Entry(clust);
      }
    }

    /** At a cluster boundary, move on to the cluster that holds the byte at the pointer. */
    method NextForRead() returns (st: FResult)
      requires Open() && fptr < objsize && fptr % 512 == 0 && Rem(fptr / 512, vol.g.csize) == 0
      modifies this`clust, vol`disk, vol`wflag, vol`winsect, vol.win
      ensures Core()
      ensures st == Ok ==> InCluster(vol.g, chain, fptr, clust)
      ensures vol.reliable ==> st == Ok
    {
      var clst := ClusterForRead();
      st := if clst < 2 then IntErr else if clst == DISK_ERROR then DiskErr else Ok;
      if st == Ok {
        clust := clst;
      }
    }

    /** Where n whole sectors of one cluster lie, and that they are what the file holds from the pointer on. */
    lemma RunIs(s: nat, n: nat)
      requires Core() && fptr % 512 == 0 && IsSlot(vol.g, chain, fptr / 512, s)
      requires 0 < n && fptr + n * 512 <= objsize && Rem(fptr / 512, vol.g.csize) + n <= vol.g.csize
      ensures vol.g.database <= s && s + n <= vol.g.nSectors && !(s <= vol.winsect < s + n) && sect <= 0xFFFF_FFFF
      ensures Flatten(Patched(vol.log[s..s + n], s, View()), 0, n) == content[fptr..fptr + n * 512]
    {
      var v := View();
      assert v.Ok() && content == Bytes(v.secs, objsize) by { assert Look(0); }
      ReadThroughAt(v, fptr, s, n, objsize);
    }

    /** Read n whole sectors of one cluster, from the pointer on, straight from the disk; a dirty buffer
        takes the place of the sector it holds. */
    method ReadRun(s: nat, n: nat) returns (st: FResult, chunk: seq<byte>)
      requires Core() && fptr % 512 == 0 && IsSlot(vol.g, chain, fptr / 512, s)
      requires 0 < n && fptr + n * 512 <= objsize && Rem(fptr / 512, vol.g.csize) + n <= vol.g.csize
      ensures st == Ok ==> chunk == content[fptr..fptr + n * 512]
      ensures vol.reliable ==> st == Ok
    {
      RunIs(s, n);
      var ok, data := vol.ReadData(s, n);
      st, chunk := DiskErr, [];
      if ok {
        data := Overlay(s, data);
        st, chunk := Ok, Flatten(data, 0, n);
      }
    }

    /** Sectors as read from the disk from s on, with the one in a dirty buffer replaced. */
    method Overlay(s: nat, data: seq<Sector>) returns (r: seq<Sector>)
      requires buf.Length == 512 && sect <= 0xFFFF_FFFF && s + |data| <= 0xFFFF_FFFF
      ensures r == Patched(data, s, View())
    {
      r := data;
      Sub32InRange(sect, s, |data|);
      if dirty && Sub32(sect, s) < |data| {
        r := r[sect - s := buf[..]];
      }
    }

    /** Make the buffer hold file sector q, which is disk sector s. */
    method Hold(s: nat, ghost q: nat) returns (st: FResult)
      requires Core() && q < |secs| && IsSlot(vol.g, chain, q, s)
      modifies this`sect, this`dirty, buf, vol`disk, vol`log
      ensures Shell()
      ensures st == Ok ==> Core() && sect == s
      ensures st == Ok && dirty ==> old(dirty)
      ensures st == Ok || st == DiskErr
      ensures vol.reliable ==> st == Ok
    {
      var ok := true;
      if sect != s {
        ok := Clean();
        if ok {
          ok := Fetch(s, q);
        }
      }
      st := if ok then Ok else DiskErr;
    }

    /** Part of the sector in the buffer. */
    method FromBuffer(n: nat) returns (chunk: seq<byte>)
      requires Core() && IsSlot(vol.g, chain, fptr / 512, sect)
      requires fptr + n <= objsize && fptr % 512 + n <= 512 && fptr < objsize
      ensures chunk == content[fptr..fptr + n]
    {
      chunk := buf[fptr % 512..fptr % 512 + n];
      assert Look(0);
      BufferPart(View(), objsize, fptr, n);
    }

    /** On a sector boundary, find the disk sector at the pointer. */
    method LocateForRead() returns (st: FResult, s: nat)
      requires Open() && fptr < objsize && fptr % 512 == 0
      modifies this`clust, vol`disk, vol`wflag, vol`winsect, vol.win
      ensures Core()
      ensures st == Ok ==> InCluster(vol.g, chain, fptr, clust) && IsSlot(vol.g, chain, fptr / 512, s)
      ensures vol.reliable ==> st == Ok
    {
      st, s := Ok, 0;
      var csect := Rem(fptr / 512, vol.g.csize);
      if csect == 0 {
        st := NextForRead();
      } else {
        CursorInside(vol.g, chain, fptr, clust, sect);
      }
      if st == Ok {
        s := vol.g.Clst2Sect(clust);
        st := if s == 0 then IntErr else Ok;
        s := s + csect;
      }
    }

    /** Move the pointer. */
    method Advance(n: nat)
      requires Core() && fptr + n <= objsize && CursorAt(vol.g, chain, fptr + n, clust, sect)
      modifies this`fptr
      ensures Open() && fptr == old(fptr) + n
    {
      fptr := fptr + n;
    }

    /** Read up to the end of the sector in the buffer. */
    method ReadPart(btr: nat) returns (chunk: seq<byte>)
      requires Core() && InCluster(vol.g, chain, fptr, clust) && IsSlot(vol.g, chain, fptr / 512, sect)
      requires 0 < btr <= objsize - fptr
      modifies this`fptr
      ensures Open() && 0 < |chunk| <= btr
      ensures fptr == old(fptr) + |chunk| && chunk == content[old(fptr)..fptr]
    {
      var rcnt := 512 - fptr % 512;
      if rcnt > btr {
        rcnt := btr;
      }
      chunk := FromBuffer(rcnt);
      CursorInSector(vol.g, chain, fptr, rcnt, clust, sect);
      Advance(rcnt);
    }

    /** Read as many of the wanted whole sectors as the cluster has left. */
    method ReadDirect(s: nat, btr: nat) returns (st: FResult, chunk: seq<byte>)
      requires Core() && fptr % 512 == 0
      requires InCluster(vol.g, chain, fptr, clust) && IsSlot(vol.g, chain, fptr / 512, s)
      requires 512 <= btr <= objsize - fptr
      modifies this`fptr
      ensures Shell()
      ensures st == Ok ==> Open() && 0 < |chunk| <= btr
      ensures st == Ok ==> fptr == old(fptr) + |chunk| && chunk == content[old(fptr)..fptr]
      ensures vol.reliable ==> st == Ok
    {
      var csect, cc := Rem(fptr / 512, vol.g.csize), btr / 512;
      if csect + cc > vol.g.csize {
        cc := vol.g.csize - csect;
      }
      st, chunk := ReadRun(s, cc);
      if st == Ok {
        CursorInCluster(vol.g, chain, fptr, cc, clust, sect);
        Advance(cc * 512);
      }
    }

    /** One round of reading: at least one byte, unless an error occurs. */
    method ReadStep(btr: nat) returns (st: FResult, chunk: seq<byte>)
      requires Open() && 0 < btr <= objsize - fptr
      modifies this`clust, this`sect, this`dirty, this`fptr, buf, vol`disk, vol`wflag, vol`winsect, vol`log, vol.win
      ensures Shell()
      ensures st == Ok ==> Open() && 0 < |chunk| <= btr
      ensures st == Ok && dirty ==> old(dirty)
      ensures st == Ok ==> fptr == old(fptr) + |chunk| && chunk == content[old(fptr)..fptr]
      ensures vol.reliable ==> st == Ok
    {
      st, chunk := Ok, [];
      if fptr % 512 == 0 {
        var s: nat;
        st, s := LocateForRead();
        if st == Ok {
          if btr >= 512 {
            st, chunk := ReadDirect(s, btr);
          } else {
            st := Hold(s, fptr / 512);
            if st == Ok {
              chunk := ReadPart(btr);
            }
          }
        }
      } else {
        CursorInside(vol.g, chain, fptr, clust, sect);
        chunk := ReadPart(btr);
      }
    }

    /** Read btr bytes, all of which are there. */
    method ReadRounds(btr: nat) returns (st: FResult, data: seq<byte>)
      requires Open() && btr <= objsize - fptr
      modifies this`clust, this`sect, this`dirty, this`fptr, buf, vol`disk, vol`wflag, vol`winsect, vol`log, vol.win
      ensures Shell()
      ensures st == Ok ==> Open() && |data| == btr
      ensures st == Ok && dirty ==> old(dirty)
      ensures st == Ok ==> fptr == old(fptr) + btr && data == content[old(fptr)..fptr]
      ensures vol.reliable ==> st == Ok
    {
      st, data := Ok, [];
      while |data| < btr && st == Ok
        invariant Shell()
        invariant st == Ok ==> Open() && |data| <= btr
        invariant st == Ok && dirty ==> old(dirty)
        invariant st == Ok ==> fptr == old(fptr) + |data| && data == content[old(fptr)..fptr]
        invariant vol.reliable ==> st == Ok
        decreases st == Ok, btr - |data|
      {
        var chunk: seq<byte>;
        st, chunk := ReadStep(btr - |data|);
        if st == Ok {
          assert data + chunk == content[old(fptr)..fptr];
          data := data + chunk;
        }
      }
    }

    /** Stop working on the file. */
    method Abort(res: FResult)
      requires res != Ok && Shell()
      modifies this`err
      ensures Valid() && err == res
    {
      err := res;
    }

    /** Read up to btr bytes from the pointer on: exactly the bytes of the file there. */
    method Read(btr: nat) returns (res: FResult, data: seq<byte>)
      requires Valid()
      modifies this, buf, vol`disk, vol`wflag, vol`winsect, vol`log, vol.win
      ensures Valid()
      ensures old(err) != Ok ==> res == err == old(err) && data == []
      ensures old(err) == Ok && !canRead ==> res == Denied && data == [] && fptr == old(fptr) && err == Ok
      ensures old(err) == Ok && canRead && vol.reliable ==> res == Ok
      ensures old(err) == Ok && (res == Ok || !canRead) ==>
                err == Ok && content == old(content) && objsize == old(objsize) && chain == old(chain)
      ensures old(err) == Ok && res == Ok ==>
                && fptr == old(fptr) + |data|
                && |data| == (if btr > objsize - old(fptr) then objsize - old(fptr) else btr)
                && data == content[old(fptr)..fptr]
    {
      data := [];
      if err != Ok {
        return err, data;
      }
      if !canRead {
        return Denied, data;
      }
      var left := btr;
      if left > objsize - fptr {
        left := objsize - fptr;
      }
      res, data := ReadRounds(left);
      if res != Ok {
        Abort(res);
      }
    }

    // ---- writing ----

    /** The table holds no reserved value, and the count of free clusters is right if it is known. */
    ghost predicate Sound()
      requires |vol.fat| >= 2
      reads vol`freeClst, vol`fat
    {
      forall k {:trigger Unfold(k)} :: Unfold(k) ==> vol.CountRight() && !HasOne(vol.fat)
    }

    /** The bytes of all clusters that the file has or could have. */
    ghost function Limit(): nat {
      Times(vol.g.ClusterBytes(), room)
    }

    /** The bytes of the clusters that the file has or could have. */
    lemma LimitBytes()
      ensures Limit() == vol.g.csize * 512 * room
    {
      TimesIsProduct(vol.g.ClusterBytes(), room);
    }

    /** The file fits into its room, and has all of it exactly if no cluster of the volume is free. */
    lemma RoomUsed()
      requires Core()
      ensures |chain| <= room && objsize <= Times(vol.g.ClusterBytes(), |chain|) <= Limit()
      ensures |chain| == room <==> NoneFree(vol.fat, 2, vol.g.nFatent)
    {
      assert View().Roomy() by { assert Look(0); }
      ZerosNone(vol.fat, 2, vol.g.nFatent);
      TimesScaled(vol.g.csize, |chain|);
      TimesMonotone(vol.g.ClusterBytes(), |chain|, room);
    }

    /** Follow or stretch the chain behind its k-th cluster clst, or start it if there is none. */
    method Extend(clst: nat, ghost k: nat) returns (c: nat)
      requires Core() && (if clst == 0 then chain == [] else k < |chain| && clst == chain[k])
      modifies this`sclust, this`chain, this`secs, vol, vol.win
      ensures Shell()
      ensures c == 0 || c == 1 || vol.g.IsCluster(c) || (c == DISK_ERROR && !vol.reliable)
      ensures c != DISK_ERROR ==> Core() && old(chain) <= chain
      ensures c == 0 || c == 1 ==> chain == old(chain)
      ensures vol.g.IsCluster(c) ==>
                var j := if clst == 0 then 0 else k + 1;
                && j < |chain| && chain[j] == c
                && (chain == old(chain) || |old(chain)| == j == |chain| - 1)
      ensures c == 0 ==> |chain| == if clst == 0 then 0 else k + 1
      ensures old(Sound()) && c != DISK_ERROR ==> Sound() && c != 1 && (c == 0 ==> |chain| == room)
    {
      ghost var v := View();
      assert v.Ok() && content == Bytes(secs, objsize) by { assert Look(0); }
      c := Chain(clst, v);
      if c != DISK_ERROR {
        GrownOk(v, clst, k, c, vol.fat, vol.log, vol.winsect);
        ghost var w := Grown(v, clst, c, vol.fat, vol.log, vol.winsect);
        Adopt(c, w);
        RoomUsed();
      }
    }

    /** Take over a longer chain. */
    method Adopt(c: nat, ghost w: State)
      requires vol.Valid() && buf.Length == 512 && buf != vol.win && w.Ok()
      requires w == View().(chain := w.chain, secs := w.secs, sclust := w.sclust) && secs <= w.secs
      requires w.sclust == if sclust == 0 && vol.g.IsCluster(c) then c else sclust
      requires fptr <= objsize <= |secs| * 512 && objsize <= 0xFFFF_FFFF && content == Bytes(secs, objsize)
      modifies this`sclust, this`chain, this`secs
      ensures Core() && chain == w.chain
    {
      BytesOfMore(secs, w.secs[|secs|..], objsize);
      assert secs + w.secs[|secs|..] == w.secs;
      chain, secs := w.chain, w.secs;
      if sclust == 0 && vol.g.IsCluster(c) {
        sclust := c;
      }
      assert View() == w;
    }

    /** Call the volume to follow or stretch a chain of the file in state v. */
    method Chain(clst: nat, ghost v: State) returns (c: nat)
      requires vol.Valid() && buf.Length == 512 && v == View() && v.Ok() && v.g == vol.g
      requires if clst == 0 then chain == [] else clst in chain
      modifies vol, vol.win
      ensures vol.Valid()
      ensures vol.winsect == old(vol.winsect) || vol.g.InFat(vol.winsect) || vol.winsect == NO_SECTOR
      ensures c == 0 || c == 1 || vol.g.IsCluster(c) || (c == DISK_ERROR && !vol.reliable)
      ensures c != DISK_ERROR ==> Created(v, clst, c, vol.fat, vol.log, vol.winsect)
      ensures old(Sound()) && c != DISK_ERROR ==> Sound() && c != 1
      ensures old(Sound()) && c == 0 ==> NoneFree(vol.fat, 2, vol.g.nFatent)
    {
      if clst != 0 { NotFree(vol.fat, chain); }
      assert Unfold(0);
      c := vol.CreateChain(clst);
    }

    /** At a cluster boundary, the cluster for the byte at the pointer, the chain being stretched if need be. */
    method ClusterForWrite() returns (clst: nat)
      requires Open() && fptr % 512 == 0 && Rem(fptr / 512, vol.g.csize) == 0
      modifies this`sclust, this`chain, this`secs, vol, vol.win
      ensures Shell()
      ensures clst == 0 || clst == 1 || vol.g.IsCluster(clst) || (clst == DISK_ERROR && !vol.reliable)
      ensures clst != DISK_ERROR ==> Core() && old(chain) <= chain
      ensures clst == 0 ==> chain == old(chain)
      ensures vol.g.IsCluster(clst) ==> InCluster(vol.g, chain, fptr, clst)
      ensures old(Sound()) && clst != DISK_ERROR ==> Sound() && clst != 1 && (clst == 0 ==> fptr == Limit())
    {
      ghost var k := Quot(fptr / 512, vol.g.csize);
      BoundaryPosition(vol.g, fptr);
      if fptr != 0 {
        BoundaryCluster(vol.g, fptr);
        clst := Extend(clust, k - 1);
      } else {
        assert sclust == (if chain == [] then 0 else chain[0]) by { assert Look(0); }
        clst := sclust;
        if clst == 0 {
          clst := Extend(0, 0);
        }
      }
    }

    /** At a cluster boundary, move on to the cluster for the byte at the pointer; full tells that there is
        none left. */
    method NextForWrite() returns (st: FResult, full: bool)
      requires Open() && fptr % 512 == 0 && Rem(fptr / 512, vol.g.csize) == 0
      modifies this`clust, this`sclust, this`chain, this`secs, vol, vol.win
      ensures Shell()
      ensures st == Ok ==> Core() && old(chain) <= chain
      ensures st == Ok && full ==> Open()
      ensures st == Ok && !full ==> InCluster(vol.g, chain, fptr, clust)
      ensures old(Sound()) && st == Ok ==> Sound() && (full ==> fptr == Limit())
      ensures old(Sound()) && vol.reliable ==> st == Ok
    {
      var clst := ClusterForWrite();
      full := clst == 0;
      st := if clst == 1 then IntErr else if clst == DISK_ERROR then DiskErr else Ok;
      if st == Ok && !full {
        clust := clst;
      }
    }

    /** On a sector boundary, find the disk sector for the byte at the pointer and clean the buffer. */
    method LocateForWrite() returns (st: FResult, full: bool, s: nat)
      requires Open() && fptr % 512 == 0
      modifies this`clust, this`sclust, this`chain, this`secs, this`dirty, vol, vol.win
      ensures Shell()
      ensures st == Ok ==> Core() && old(chain) <= chain
      ensures st == Ok && full ==> Open()
      ensures st == Ok && !full ==>
                InCluster(vol.g, chain, fptr, clust) && IsSlot(vol.g, chain, fptr / 512, s) && !dirty
      ensures old(Sound()) && st == Ok ==> Sound() && (full ==> fptr == Limit())
      ensures old(Sound()) && vol.reliable ==> st == Ok
    {
      st, full, s := Ok, false, 0;
      var csect := Rem(fptr / 512, vol.g.csize);
      if csect == 0 {
        st, full := NextForWrite();
      } else {
        CursorInside(vol.g, chain, fptr, clust, sect);
      }
      if st == Ok && !full {
        if dirty {
          var ok := Flush();
          st := if ok then Ok else DiskErr;
        }
        if st == Ok {
          s := vol.g.Clst2Sect(clust);
          st := if s == 0 then IntErr else Ok;
          s := s + csect;
        }
      }
    }

    /** Take over new sectors, size and bytes. */
    method Settle(size: nat, ghost w: State, ghost content': seq<byte>)
      requires vol.Valid() && buf.Length == 512 && buf != vol.win && w.Ok() && w == View().(secs := w.secs)
      requires fptr <= size <= |w.secs| * 512 && size <= 0xFFFF_FFFF && content' == Bytes(w.secs, size)
      modifies this`secs, this`objsize, this`content
      ensures Core() && content == content' && objsize == size && secs == w.secs
    {
      secs, content := w.secs, content';
      objsize := size;
      assert View() == w;
    }

    /** Write whole sectors of one cluster at the pointer straight to the disk; a buffer that holds one of them
        is brought up to date. */
    method TransferOut(s: nat, data: seq<byte>) returns (st: FResult)
      requires Core() && !dirty && fptr % 512 == 0 && IsSlot(vol.g, chain, fptr / 512, s)
      requires |data| % 512 == 0 && 0 < |data| && Rem(fptr / 512, vol.g.csize) + |data| / 512 <= vol.g.csize
      modifies buf, vol`disk, vol`log
      ensures Shell()
      ensures st == Ok ==> View() == old(View()).(log := vol.log, buf := View().buf)
      ensures st == Ok ==> fptr / 512 + |data| / 512 <= |secs| &&
                           View().(secs := Replace(secs, fptr / 512, Sectors(data))).Ok()
      ensures st == Ok || st == DiskErr
      ensures vol.reliable ==> st == Ok
    {
      ghost var v := View();
      assert v.Ok() by { assert Look(0); }
      var run := Sectors(data);
      SectorInChain(vol.g, chain, fptr / 512);
      Transferred(v, fptr / 512, run);
      var ok := vol.WriteData(s, run);
      st := if ok then Ok else DiskErr;
      if ok {
        Sub32InRange(sect, s, |run|);
        if Sub32(sect, s) < |run| {
          CopyInto(buf, 0, run[sect - s]);
        }
      }
    }

    /** Write cc whole sectors of one cluster at the pointer. */
    method WriteRun(s: nat, cc: nat, data: seq<byte>) returns (st: FResult)
      requires Core() && !dirty && fptr % 512 == 0 && IsSlot(vol.g, chain, fptr / 512, s)
      requires 0 < cc && |data| == cc * 512 && Rem(fptr / 512, vol.g.csize) + cc <= vol.g.csize
      requires fptr + |data| <= 0xFFFF_FFFF
      modifies this`secs, this`objsize, this`content, buf, vol`disk, vol`log
      ensures Shell()
      ensures st == Ok ==> Core() && Wrote(old(content), fptr, data, content)
      ensures st == Ok || st == DiskErr
      ensures vol.reliable ==> st == Ok
    {
      assert content == Bytes(secs, objsize) by { assert Look(0); }
      assert fptr == fptr / 512 * 512 && |data| / 512 == cc;
      ghost var q := fptr / 512;
      st := TransferOut(s, data);
      if st == Ok {
        SplicedRun(secs, objsize, q, data);
        Settle(if fptr + |data| > objsize then fptr + |data| else objsize,
               View().(secs := Replace(secs, q, Sectors(data))), Spliced(content, fptr, data));
      }
    }

    /** Write as many of the wanted whole sectors as the cluster has left. */
    method WriteDirect(s: nat, data: seq<byte>) returns (st: FResult, n: nat)
      requires Core() && !dirty && fptr % 512 == 0
      requires InCluster(vol.g, chain, fptr, clust) && IsSlot(vol.g, chain, fptr / 512, s)
      requires 512 <= |data| && fptr + |data| <= 0xFFFF_FFFF
      modifies this`fptr, this`secs, this`objsize, this`content, buf, vol`disk, vol`log
      ensures Shell()
      ensures st == Ok ==> Open() && 0 < n <= |data| && fptr == old(fptr) + n
      ensures st == Ok ==> Wrote(old(content), old(fptr), data[..n], content)
      ensures st == Ok || st == DiskErr
      ensures vol.reliable ==> st == Ok
    {
      var csect, cc := Rem(fptr / 512, vol.g.csize), |data| / 512;
      if csect + cc > vol.g.csize {
        cc := vol.g.csize - csect;
      }
      n := cc * 512;
      st := WriteRun(s, cc, data[..n]);
      if st == Ok {
        CursorInCluster(vol.g, chain, fptr, cc, clust, sect);
        Advance(n);
      }
    }

    /** Copy bytes into the buffer, which then holds file sector q, disk sector s, and is dirty. */
    method Stamp(s: nat, o: nat, data: seq<byte>, ghost q: nat)
      requires vol.Valid() && buf.Length == 512 && buf != vol.win && o + |data| <= 512
      modifies this`sect, this`dirty, this`slot, buf
      ensures vol.Valid()
      ensures View() == old(View()).(sect := s, dirty := true, slot := q, buf := Replace(old(buf[..]), o, data))
    {
      CopyInto(buf, o, data);
      sect, dirty, slot := s, true, q;
    }

    /** Copy bytes into the buffer as part of the sector at the pointer, which becomes dirty. */
    method PutPart(s: nat, data: seq<byte>)
      requires Core() && IsSlot(vol.g, chain, fptr / 512, s) && (dirty ==> sect == s)
      requires fptr / 512 < |secs| && (buf[..] == secs[fptr / 512] || (fptr % 512 == 0 && fptr == objsize))
      requires fptr % 512 + |data| <= 512 && fptr + |data| <= 0xFFFF_FFFF
      modifies this`sect, this`dirty, this`slot, this`secs, this`objsize, this`content, buf
      ensures Core() && sect == s && Wrote(old(content), fptr, data, content)
    {
      ghost var v := View();
      assert v.Ok() && content == Bytes(v.secs, objsize) by { assert Look(0); }
      ghost var w := PutInBuffer(v, objsize, fptr, s, data);
      Stamp(s, fptr % 512, data, fptr / 512);
      Settle(if fptr + |data| > objsize then fptr + |data| else objsize, w, Spliced(content, fptr, data));
    }

    /** Write up to the end of the sector in the buffer, which is that at the pointer. */
    method WritePart(s: nat, data: seq<byte>) returns (n: nat)
      requires Core() && InCluster(vol.g, chain, fptr, clust) && IsSlot(vol.g, chain, fptr / 512, s)
      requires (dirty ==> sect == s) && (sect == s || (fptr % 512 == 0 && fptr == objsize))
      requires 0 < |data| && fptr + |data| <= 0xFFFF_FFFF
      modifies this`fptr, this`sect, this`dirty, this`slot, this`secs, this`objsize, this`content, buf
      ensures Open() && 0 < n <= |data| && fptr == old(fptr) + n
      ensures Wrote(old(content), old(fptr), data[..n], content)
    {
      n := 512 - fptr % 512;
      if n > |data| {
        n := |data|;
      }
      SectorInChain(vol.g, chain, fptr / 512);
      if sect == s {
        assert buf[..] == secs[fptr / 512] by { assert Look(0); BufferIs(View(), fptr / 512); }
      }
      PutPart(s, data[..n]);
      CursorInSector(vol.g, chain, fptr, n, clust, sect);
      Advance(n);
    }

    /** On a sector boundary with a clean buffer, write at the pointer: whole sectors if there are any, or else
        the first part of a sector, which is loaded first unless it lies behind the end of the file. */
    method WriteBoundary(s: nat, data: seq<byte>) returns (st: FResult, n: nat)
      requires Core() && !dirty && fptr % 512 == 0
      requires InCluster(vol.g, chain, fptr, clust) && IsSlot(vol.g, chain, fptr / 512, s)
      requires 0 < |data| && fptr + |data| <= 0xFFFF_FFFF
      modifies this`fptr, this`sect, this`dirty, this`slot, this`secs, this`objsize, this`content, buf, vol`disk, vol`log
      ensures Shell()
      ensures st == Ok ==> Open() && 0 < n <= |data| && fptr == old(fptr) + n
      ensures st == Ok ==> Wrote(old(content), old(fptr), data[..n], content)
      ensures st == Ok || st == DiskErr
      ensures vol.reliable ==> st == Ok
    {
      st, n := Ok, 0;
      if |data| >= 512 {
        st, n := WriteDirect(s, data);
      } else {
        if sect != s && fptr < objsize {
          SectorInChain(vol.g, chain, fptr / 512);
          var ok := Fetch(s, fptr / 512);
          st := if ok then Ok else DiskErr;
        }
        if st == Ok {
          n := WritePart(s, data);
        }
      }
    }

    /** One round of writing: at least one byte, unless the volume is full or an error occurs. */
    method WriteStep(data: seq<byte>) returns (st: FResult, n: nat)
      requires Open() && 0 < |data| && fptr + |data| <= 0xFFFF_FFFF
      modifies this, buf, vol, vol.win
      ensures Shell()
      ensures err == old(err)
      ensures st == Ok ==> Open() && n <= |data| && fptr == old(fptr) + n && old(chain) <= chain
      ensures st == Ok ==> Wrote(old(content), old(fptr), data[..n], content)
      ensures old(Sound()) && st == Ok ==> Sound() && (n == 0 ==> fptr == Limit())
      ensures old(Sound()) && vol.reliable ==> st == Ok
    {
      st, n := Ok, 0;
      if fptr % 512 == 0 {
        var full: bool, s: nat;
        st, full, s := LocateForWrite();
        if st == Ok && !full {
          st, n := WriteBoundary(s, data);
        }
      } else {
        CursorInside(vol.g, chain, fptr, clust, sect);
        n := WritePart(sect, data);
      }
      WroteNothing(old(content), old(fptr));
    }

    /** Write data at the pointer round by round, until it is written or the volume is full. */
    method WriteRounds(data: seq<byte>) returns (res: FResult, rest: seq<byte>, ghost done: seq<byte>)
      requires Open() && fptr + |data| <= 0xFFFF_FFFF
      modifies this, buf, vol, vol.win
      ensures Shell()
      ensures err == old(err) && done + rest == data
      ensures res == Ok ==> Open() && fptr == old(fptr) + |done| && old(chain) <= chain
      ensures res == Ok ==> Wrote(old(content), old(fptr), done, content)
      ensures old(Sound()) && res == Ok ==> Sound() && (rest != [] ==> fptr == Limit())
      ensures old(Sound()) && vol.reliable ==> res == Ok
    {
      rest, done, res := data, [], Ok;
      var full := false;
      WroteNothing(content, fptr);
      while rest != [] && !full && res == Ok
        invariant Shell()
        invariant err == old(err) && done + rest == data
        invariant res == Ok ==> Open() && old(chain) <= chain && fptr == old(fptr) + |done|
        invariant res == Ok ==> Wrote(old(content), old(fptr), done, content)
        invariant old(Sound()) && res == Ok ==> Sound() && (full ==> fptr == Limit())
        invariant old(Sound()) && vol.reliable ==> res == Ok
        decreases |rest|, !full, res == Ok
      {
        ghost var before := content;
        var n: nat;
        res, n := WriteStep(rest);
        if res == Ok {
          done := WroteStep(old(content), old(fptr), done, before, rest, n, content);
          rest := rest[n..];
          full := n == 0;
        }
      }
    }

    /** Write data to an open file, up to the largest file size. */
    method WriteOpen(data: seq<byte>) returns (res: FResult, bw: nat)
      requires Open() && |data| <= 0xFFFF_FFFF
      modifies this, buf, vol, vol.win
      ensures Shell()
      ensures err == old(err) && bw <= |data|
      ensures res == Ok ==> Open() && fptr == old(fptr) + bw && old(chain) <= chain
      ensures res == Ok ==> Wrote(old(content), old(fptr), data[..bw], content)
      ensures old(Sound()) && res == Ok ==>
                Sound() && fptr == Least(old(fptr) + |data|, Least(0xFFFF_FFFF, Limit()))
      ensures old(Sound()) && vol.reliable ==> res == Ok
    {
      var btw := Writable(fptr, |data|);
      var rest: seq<byte>;
      ghost var done: seq<byte>;
      res, rest, done := WriteRounds(data[..btw]);
      bw := btw - |rest|;
      Leading(data, btw, done, rest);
      if res == Ok {
        RoomUsed();
      }
    }

    /** Write data at the pointer. The file then holds the bytes written, its other bytes are as before, and less than
        all is written only at the largest file size or at the end of the last cluster of the volume. */
    method Write(data: seq<byte>) returns (res: FResult, bw: nat)
      requires Valid() && |data| <= 0xFFFF_FFFF
      modifies this, buf, vol, vol.win
      ensures Valid()
      ensures old(err) != Ok ==> res == err == old(err) && bw == 0
      ensures old(err) == Ok && !canWrite ==>
                res == Denied && bw == 0 && err == Ok && content == old(content) && fptr == old(fptr)
      ensures old(err) == Ok && canWrite && old(Open() && Sound()) && vol.reliable ==> res == Ok
      ensures old(err) == Ok && canWrite && res == Ok ==>
                && err == Ok && bw <= |data| && modified
                && fptr == old(fptr) + bw && objsize == |content| && old(chain) <= chain
                && content == Spliced(old(content), old(fptr), data[..bw])
      ensures old(err) == Ok && canWrite && res == Ok && old(Sound()) ==>
                Sound() && fptr == Least(old(fptr) + |data|, Least(0xFFFF_FFFF, Limit()))
    {
      bw := 0;
      if err != Ok {
        return err, bw;
      }
      if !canWrite {
        return Denied, bw;
      }
      res, bw := WriteOpen(data);
      if res == Ok {
        modified := true;
        assert Glance(0);
      } else {
        Abort(res);
      }
    }

    // ---- seeking ----

    /** The cluster behind the k-th one, clst: followed, or in a writable file stretched; 0 if none is left. */
    method WalkStep(clst: nat, ghost k: nat) returns (c: nat)
      requires Core() && k < |chain| && clst == chain[k] && (canWrite || k + 1 < |chain|)
      modifies this`sclust, this`chain, this`secs, vol, vol.win
      ensures Shell()
      ensures c == 0 || c == 1 || vol.g.IsCluster(c) || (c == DISK_ERROR && !vol.reliable)
      ensures c != DISK_ERROR ==> Core() && old(chain) <= chain
      ensures c == 0 ==> chain == old(chain) && canWrite && |chain| == k + 1
      ensures vol.g.IsCluster(c) ==> k + 1 < |chain| && chain[k + 1] == c
      ensures !canWrite ==> chain == old(chain)
      ensures old(Sound()) && c != DISK_ERROR ==> Sound() && c != 1 && (c == 0 ==> |chain| == room)
    {
      if canWrite {
        c := Extend(clst, k);
      } else {
        assert vol.fat[chain[k]] == chain[k + 1] by { assert Look(0); }
        c := Entry(clst);
      }
    }

    /** Go on from the k-th cluster, the current one, to the next; full tells that there is none left. */
    method Follow(ghost k: nat) returns (st: FResult, full: bool)
      requires Core() && k < |chain| && clust == chain[k] && (canWrite || k + 1 < |chain|)
      modifies this`clust, this`sclust, this`chain, this`secs, vol, vol.win
      ensures Shell()
      ensures st == Ok ==> Core() && old(chain) <= chain
      ensures st == Ok && full ==>
                canWrite && |chain| == k + 1 && clust == chain[k] && (old(Sound()) ==> |chain| == room)
      ensures st == Ok && !full ==> k + 1 < |chain| && clust == chain[k + 1]
      ensures old(Sound()) && st == Ok ==> Sound()
      ensures old(Sound()) && vol.reliable ==> st == Ok
    {
      var c := WalkStep(clust, k);
      full := c == 0;
      st := if full || vol.g.IsCluster(c) then Ok else if c == DISK_ERROR then DiskErr else IntErr;
      if st == Ok && !full {
        clust := c;
      }
    }

    /** Follow the chain from its k-th cluster, the current one, to the cluster of the byte before the one rest
        bytes behind its start. The result is the distance covered and what is left of it in that cluster. It is less
        than asked for only where a writable file has come to the end of its chain and cannot get another cluster. */
    method Walk(start: nat, ghost k0: nat) returns (st: FResult, pos: nat, rest: nat, ghost k: nat)
      requires Core() && k0 < |chain| && clust == chain[k0] && 0 < start
      requires canWrite || Times(vol.g.ClusterBytes(), k0) + start <= objsize
      modifies this`clust, this`sclust, this`chain, this`secs, vol, vol.win
      ensures Shell()
      ensures st == Ok ==> Core() && old(chain) <= chain && k < |chain| && clust == chain[k]
      ensures st == Ok ==> Times(vol.g.ClusterBytes(), k0) + pos == Times(vol.g.ClusterBytes(), k)
                           && 0 < rest <= vol.g.ClusterBytes() && pos + rest <= start
      ensures st == Ok && pos + rest < start ==>
                canWrite && rest == vol.g.ClusterBytes() && |chain| == k + 1 && (old(Sound()) ==> |chain| == room)
      ensures old(Sound()) && st == Ok ==> Sound()
      ensures old(Sound()) && vol.reliable ==> st == Ok
    {
      var bcs := vol.g.ClusterBytes();
      st, pos, rest, k := Ok, 0, start, k0;
      var full := false;
      while rest > bcs && st == Ok && !full
        invariant Shell()
        invariant st == Ok ==> Core() && old(chain) <= chain && k < |chain| && clust == chain[k]
        invariant Times(bcs, k0) + pos == Times(bcs, k) && pos + rest == start && 0 < rest
        invariant old(Sound()) && st == Ok ==> Sound()
        invariant old(Sound()) && vol.reliable ==> st == Ok
        invariant st == Ok && full ==> rest > bcs && canWrite && |chain| == k + 1 && (old(Sound()) ==> |chain| == room)
        decreases rest, !full, st == Ok
      {
        if !canWrite { NextClusterExists(vol.g, k, |chain|, Times(bcs, k0) + start); }
        st, full := Follow(k);
        if st == Ok && !full {
          rest, pos, k := rest - bcs, pos + bcs, k + 1;
        }
      }
      if full {
        rest := bcs;
      }
    }

    /** Go to the first cluster, which a file without clusters gets now; none tells that it could not. */
    method GoToFirst() returns (st: FResult, none: bool)
      requires Core()
      modifies this`clust, this`sclust, this`chain, this`secs, vol, vol.win
      ensures Shell()
      ensures st == Ok ==> Core() && old(chain) <= chain
      ensures st == Ok && none ==> chain == old(chain) == [] && (old(Sound()) ==> room == 0)
      ensures st == Ok && !none ==> 0 < |chain| && clust == chain[0]
      ensures old(Sound()) && st == Ok ==> Sound()
      ensures old(Sound()) && vol.reliable ==> st == Ok
    {
      assert sclust == (if chain == [] then 0 else chain[0]) by { assert Look(0); }
      var clst := sclust;
      if clst == 0 {
        clst := Extend(0, 0);
      }
      none := clst == 0;
      st := if clst == 1 then IntErr else if clst == DISK_ERROR then DiskErr else Ok;
      if st == Ok {
        clust := clst;
      }
    }

    /** Find the cluster to start from: the current one if the target lies in it or behind it, or else the first
        one. The result is its distance from the start of the file; none tells that there is no cluster. */
    method StartFrom(ofs: nat) returns (st: FResult, none: bool, base: nat, ghost k: nat)
      requires Open() && 0 < ofs && (canWrite || ofs <= objsize)
      modifies this`clust, this`sclust, this`chain, this`secs, vol, vol.win
      ensures Shell()
      ensures st == Ok ==> Core() && old(chain) <= chain
      ensures st == Ok && none ==> canWrite && chain == [] && (old(Sound()) ==> room == 0)
      ensures st == Ok && !none ==>
                && k < |chain| && clust == chain[k] && base == Times(vol.g.ClusterBytes(), k) < ofs
      ensures old(Sound()) && st == Ok ==> Sound()
      ensures old(Sound()) && vol.reliable ==> st == Ok
    {
      var bcs := vol.g.ClusterBytes();
      if fptr > 0 { ClusterStart(vol.g, fptr - 1, ofs - 1); }
      if fptr > 0 && Quot(ofs - 1, bcs) >= Quot(fptr - 1, bcs) {
        st, none := Ok, false;
        base, k := fptr - 1 - Rem(fptr - 1, bcs), Quot(fptr - 1, bcs);
      } else {
        base, k := 0, 0;
        st, none := GoToFirst();
      }
    }

    /** Put the pointer at p, in or behind the file, which grows if need be. */
    method MoveTo(p: nat)
      requires Core() && p <= |secs| * 512 && p <= 0xFFFF_FFFF
      modifies this`fptr, this`objsize, this`content, this`modified
      ensures Core() && fptr == p && objsize == (if p > old(objsize) then p else old(objsize))
      ensures old(content) <= content && |content| == objsize && (old(modified) ==> modified)
    {
      ghost var v := View();
      assert v.Ok() && content == Bytes(secs, objsize) by { assert Look(0); }
      fptr := p;
      if fptr > objsize {
        BytesGrow(secs, objsize, p);
        content := Bytes(secs, p);
        objsize := fptr;
        modified := true;
      }
    }

    /** Put the pointer rest bytes into the current cluster, the k-th, which starts at base, and make the buffer
        hold the sector if the pointer is inside one. */
    method Place(base: nat, rest: nat, ghost k: nat) returns (st: FResult)
      requires Core() && k < |chain| && clust == chain[k] && base == Times(vol.g.ClusterBytes(), k)
      requires 0 < rest <= vol.g.ClusterBytes() && base + rest <= 0xFFFF_FFFF
      modifies this`fptr, this`objsize, this`content, this`modified, this`sect, this`dirty, buf, vol`disk, vol`log
      ensures Shell()
      ensures st == Ok ==> Open() && fptr == base + rest && (old(modified) ==> modified)
      ensures st == Ok && dirty ==> old(dirty)
      ensures st == Ok ==> objsize == (if fptr > old(objsize) then fptr else old(objsize))
      ensures st == Ok ==> old(content) <= content && |content| == objsize
      ensures st == Ok || st == DiskErr || st == IntErr
      ensures vol.reliable ==> st == Ok
    {
      PositionInChain(vol.g, k, |chain|, rest);
      st := Ok;
      var nsect := 0;
      if rest % 512 != 0 {
        nsect := vol.g.Clst2Sect(clust);
        st := if nsect == 0 then IntErr else Ok;
        nsect := nsect + rest / 512;
      }
      CursorPlaced(vol.g, chain, k, rest, nsect);
      if st == Ok {
        MoveTo(base + rest);
        if fptr % 512 != 0 {
          st := Hold(nsect, fptr / 512);
        } else {
          CursorPlaced(vol.g, chain, k, rest, sect);
        }
      }
    }

    /** Move the pointer to target, going on from the current cluster, the k-th, which starts at base before it. */
    method GoFrom(base: nat, target: nat, ghost k: nat) returns (st: FResult)
      requires Core() && (canWrite || target <= objsize) && target <= 0xFFFF_FFFF
      requires k < |chain| && clust == chain[k] && base == Times(vol.g.ClusterBytes(), k) < target
      modifies this, buf, vol, vol.win
      ensures Shell()
      ensures err == old(err)
      ensures st == Ok ==> Open() && fptr <= target && old(chain) <= chain
      ensures st == Ok && dirty ==> old(dirty)
      ensures st == Ok && old(modified) ==> modified
      ensures st == Ok ==> objsize == (if fptr > old(objsize) then fptr else old(objsize))
      ensures st == Ok ==> old(content) <= content && |content| == objsize
      ensures st == Ok && fptr < target ==>
                canWrite && fptr == Times(vol.g.ClusterBytes(), |chain|) && (old(Sound()) ==> |chain| == room)
      ensures old(Sound()) && st == Ok ==> Sound()
      ensures old(Sound()) && vol.reliable ==> st == Ok
    {
      var pos, rest;
      ghost var k': nat;
      st, pos, rest, k' := Walk(target - base, k);
      if st == Ok {
        st := Place(base + pos, rest, k');
      }
    }

    /** Move the pointer to target, stretching a writable file up to there as far as clusters last. */
    method SeekTo(target: nat) returns (st: FResult)
      requires Open() && (canWrite || target <= objsize) && target <= 0xFFFF_FFFF
      modifies this, buf, vol, vol.win
      ensures Shell()
      ensures err == old(err)
      ensures st == Ok ==> Open() && fptr <= target && old(chain) <= chain
      ensures st == Ok && dirty ==> old(dirty)
      ensures st == Ok && old(modified) ==> modified
      ensures st == Ok ==> objsize == (if fptr > old(objsize) then fptr else old(objsize))
      ensures st == Ok ==> old(content) <= content && |content| == objsize
      ensures st == Ok && fptr < target ==>
                canWrite && fptr == Times(vol.g.ClusterBytes(), |chain|) && (old(Sound()) ==> |chain| == room)
      ensures old(Sound()) && st == Ok ==> Sound()
      ensures old(Sound()) && vol.reliable ==> st == Ok
    {
      st := Ok;
      var none, base := true, 0;
      ghost var k := 0;
      if target > 0 {
        st, none, base, k := StartFrom(target);
      }
      if st == Ok {
        if none {
          MoveTo(0);
        } else {
          st := GoFrom(base, target, k);
        }
      }
    }

    /** Move the pointer. The bytes of the file stay. A writable file grows up to the pointer, by bytes that are not
        specified, and the pointer stops short of ofs only behind the old bytes, at the end of the chain, when it has
        all the clusters it could have. The current cluster is that of the byte before the pointer, whether the search
        for it began at the first cluster or at the former current one. */
    method Seek(ofs: nat) returns (res: FResult)
      requires Valid() && ofs <= 0xFFFF_FFFF
      modifies this, buf, vol, vol.win
      ensures Valid()
      ensures old(err) != Ok ==> res == err == old(err)
      ensures old(err) == Ok && old(Open() && Sound()) && vol.reliable ==> res == Ok
      ensures old(err) == Ok && res == Ok ==>
                && err == Ok && old(chain) <= chain
                && objsize == |content| == (if fptr > old(objsize) then fptr else old(objsize))
                && old(content) <= content
      ensures old(err) == Ok && res == Ok && !canWrite ==>
                fptr == if ofs > objsize then objsize else ofs
      ensures old(err) == Ok && res == Ok && fptr > 0 ==> InCluster(vol.g, chain, fptr - 1, clust)
      ensures old(err) == Ok && res == Ok && canWrite ==>
                fptr == ofs || old(objsize) <= fptr == Times(vol.g.ClusterBytes(), |chain|) < ofs
      ensures old(err) == Ok && res == Ok && old(Sound()) ==> Sound() && (canWrite ==> fptr == Least(ofs, Limit()))
    {
      if err != Ok {
        return err;
      }
      var target := ofs;
      if target > objsize && !canWrite {
        target := objsize;
      }
      res := SeekTo(target);
      if res == Ok {
        RoomUsed();
      } else {
        Abort(res);
      }
    }

    // ---- truncating ----

    /** Free the clusters of the file from the n-th on, on the volume. */
    method FreeFrom(clst: nat, pclst: nat, ghost n: nat, ghost v: State) returns (st: FResult)
      requires vol.Valid() && buf.Length == 512 && v == View() && v.Ok() && v.g == vol.g
      requires n < |chain| && clst == chain[n] && pclst == if n == 0 then 0 else chain[n - 1]
      modifies vol, vol.win
      ensures vol.Valid()
      ensures vol.winsect == old(vol.winsect) || vol.g.InFat(vol.winsect) || vol.winsect == NO_SECTOR
      ensures st == Ok || (st == DiskErr && !vol.reliable)
      ensures st == Ok ==> SameOffFat(vol.g, v.log, vol.log) && vol.g.InFat(vol.winsect)
      ensures st == Ok ==> vol.fat == Cut(v.fat, clst, pclst, vol.g.kind.Mask())
      ensures old(Sound()) && st == Ok ==> Sound()
    {
      CutAnywhere(vol.fat, chain, n, vol.g.kind.Mask());
      CutHasNoNewOne(vol.fat, clst, pclst, vol.g.kind.Mask());
      NotFree(vol.fat, chain);
      assert Unfold(0);
      st := vol.RemoveChain(clst, pclst);
    }

    /** Free the clusters from the n-th on; w is the file without them, once its buffer is written back. */
    method Unchain(clst: nat, pclst: nat, ghost n: nat, ghost v: State) returns (st: FResult, ghost w: State)
      requires Shell() && v == View() && v.Ok() && v.g == vol.g
      requires n < |chain| && clst == chain[n] && pclst == if n == 0 then 0 else chain[n - 1]
      modifies vol, vol.win
      ensures Shell()
      ensures st == Ok || (st == DiskErr && !vol.reliable)
      ensures st == Ok ==> w.Ok() && w.chain == chain[..n] && Times(vol.g.csize, n) <= |secs|
      ensures st == Ok ==> w.secs == secs[..Times(vol.g.csize, n)] && w.sclust == if n == 0 then 0 else sclust
      ensures st == Ok ==> w == View().(log := Seen(vol.log, dirty, sect, buf[..]), dirty := false,
                                        chain := w.chain, secs := w.secs, sclust := w.sclust)
      ensures st == Ok ==> AllFree(vol.fat, chain[n..])
      ensures old(Sound()) && st == Ok ==> Sound()
    {
      st := FreeFrom(clst, pclst, n, v);
      w := v;
      if st == Ok {
        FreedTail(v.fat, v.chain, n, v.g.kind.Mask());
        Truncated(v, n, v.g.kind.Mask(), vol.fat, vol.log, vol.winsect);
        w := Shortened(v, n, vol.fat, vol.log, vol.winsect);
      }
    }

    /** Write the buffer back if it is dirty; the sector need not belong to the file any more. */
    method WriteBuffer() returns (ok: bool)
      requires Shell()
      modifies this`dirty, vol`disk, vol`log
      ensures Shell()
      ensures ok ==> !dirty && vol.log == Seen(old(vol.log), old(dirty), sect, buf[..])
      ensures vol.reliable ==> ok
    {
      ok := true;
      if dirty {
        ok := vol.WriteData(sect, [buf[..]]);
        dirty := !ok;
      }
    }

    /** Take over a shorter chain. */
    method Release(toZero: bool, ghost w: State)
      requires vol.Valid() && buf.Length == 512 && buf != vol.win && w.Ok()
      requires w == View().(chain := w.chain, secs := w.secs, sclust := w.sclust) && w.secs <= secs
      requires w.sclust == if toZero then 0 else sclust
      requires fptr <= |w.secs| * 512 && fptr <= objsize <= |secs| * 512 && objsize <= 0xFFFF_FFFF
      requires content == Bytes(secs, objsize)
      modifies this`sclust, this`chain, this`secs, this`objsize, this`content
      ensures Core() && chain == w.chain && objsize == fptr && content == old(content)[..fptr]
    {
      BytesOfMore(w.secs, secs[|w.secs|..], fptr);
      assert w.secs + secs[|w.secs|..] == secs;
      BytesGrow(secs, fptr, objsize);
      if toZero {
        sclust := 0;
      }
      chain, secs, content := w.chain, w.secs, content[..fptr];
      objsize := fptr;
      assert View() == w;
    }

    /** Write the buffer back and take over a shorter chain. */
    method Conclude(toZero: bool, ghost w: State) returns (st: FResult)
      requires Shell() && w.Ok()
      requires w == View().(log := Seen(vol.log, dirty, sect, buf[..]), dirty := false,
                            chain := w.chain, secs := w.secs, sclust := w.sclust) && w.secs <= secs
      requires w.sclust == if toZero then 0 else sclust
      requires fptr <= |w.secs| * 512 && fptr <= objsize <= |secs| * 512 && objsize <= 0xFFFF_FFFF
      requires content == Bytes(secs, objsize)
      modifies this`sclust, this`dirty, this`chain, this`secs, this`objsize, this`content, vol`disk, vol`log
      ensures Shell()
      ensures st == Ok || (st == DiskErr && !vol.reliable)
      ensures st == Ok ==> Core() && chain == w.chain && objsize == fptr && content == old(content)[..fptr] && !dirty
    {
      var ok := WriteBuffer();
      st := if ok then Ok else DiskErr;
      if ok {
        Release(toZero, w);
      }
    }

    /** Free the clusters of the file from the n-th on and cut the file at the pointer. */
    method Shorten(clst: nat, pclst: nat, ghost n: nat) returns (st: FResult)
      requires Core() && n < |chain| && clst == chain[n] && pclst == (if n == 0 then 0 else chain[n - 1])
      requires fptr <= Times(vol.g.csize, n) * 512
      modifies this`sclust, this`dirty, this`chain, this`secs, this`objsize, this`content, vol, vol.win
      ensures Shell()
      ensures st == Ok || (st == DiskErr && !vol.reliable)
      ensures st == Ok ==> Core() && objsize == fptr && content == old(content)[..fptr] && !dirty
      ensures st == Ok ==>
                chain == old(chain)[..n] && AllFree(vol.fat, old(chain)[n..])
      ensures old(Sound()) && st == Ok ==> Sound()
    {
      ghost var v := View();
      assert v.Ok() && content == Bytes(secs, objsize) by { assert Look(0); }
      ghost var w: State;
      st, w := Unchain(clst, pclst, n, v);
      if st == Ok {
        st := Conclude(pclst == 0, w);
      }
    }

    /** Let the file end at the pointer. */
    method Clip()
      requires Core()
      modifies this`objsize, this`content
      ensures Core() && objsize == fptr && content == old(content)[..fptr]
    {
      assert View().Ok() && content == Bytes(secs, objsize) by { assert Look(0); }
      BytesGrow(secs, fptr, objsize);
      content := content[..fptr];
      objsize := fptr;
    }

    /** Cut the file at the pointer, n clusters into its chain; ncl is the entry of the last of them. */
    method CutBehind(ncl: nat, ghost n: nat) returns (st: FResult)
      requires Core() && vol.g.IsCluster(clust) && 0 < n <= |chain| && clust == chain[n - 1]
               && fptr <= Times(vol.g.csize, n) * 512
      requires if n < |chain| then ncl == chain[n] && vol.g.IsCluster(ncl) else ncl >= vol.g.nFatent
      modifies this`sclust, this`dirty, this`chain, this`secs, this`objsize, this`content, vol, vol.win
      ensures Shell()
      ensures st == Ok || (st == DiskErr && !vol.reliable)
      ensures st == Ok ==> Core() && objsize == fptr && content == old(content)[..fptr] && chain == old(chain)[..n]
      ensures st == Ok ==> AllFree(vol.fat, old(chain)[n..])
      ensures old(Sound()) && st == Ok ==> Sound()
    {
      if ncl < vol.g.nFatent {
        st := Shorten(ncl, clust, n);
      } else {
        assert chain[..n] == chain;
        var ok := Clean();
        st := if ok then Ok else DiskErr;
        if ok {
          Clip();
        }
      }
    }

    /** The entry behind the pointer's cluster leads to the next cluster of the chain, if there is one. */
    lemma EntryBehind(n: nat)
      requires Core() && 0 < n <= |chain|
      ensures vol.g.IsCluster(chain[n - 1]) && chain[n - 1] < |vol.fat|
      ensures var e := vol.fat[chain[n - 1]];
              e > 1 && if n < |chain| then e == chain[n] && vol.g.IsCluster(e) else e >= vol.g.nFatent
    {
      assert Look(0);
      assert InTable(vol.fat, chain[n - 1]);
      if n < |chain| {
        assert InTable(vol.fat, chain[n]);
      }
    }

    /** Cut the file at the pointer, which lies before its end and is not 0. */
    method CutAtPointer() returns (st: FResult)
      requires Open() && 0 < fptr < objsize
      modifies this`sclust, this`dirty, this`chain, this`secs, this`objsize, this`content, vol, vol.win
      ensures Shell()
      ensures st == Ok || (st == DiskErr && !vol.reliable)
      ensures st == Ok ==> Open() && objsize == fptr && content == old(content)[..fptr]
      ensures st == Ok ==>
                && |chain| == ClustersFor(vol.g, fptr) && chain <= old(chain)
                && AllFree(vol.fat, old(chain)[|chain|..])
      ensures old(Sound()) && st == Ok ==> Sound()
    {
      ghost var n := Quot((fptr - 1) / 512, vol.g.csize) + 1;
      PointerInClusters(vol.g, fptr);
      EntryBehind(n);
      CursorCut(vol.g, chain, n, fptr, clust, sect);
      var ncl := Entry(clust);
      if ncl == DISK_ERROR {
        st := DiskErr;
      } else if ncl == 1 {
        st := IntErr;
      } else {
        st := CutBehind(ncl, n);
      }
    }

    /** Cut an open file at the pointer, which lies before its end. */
    method CutOpen() returns (res: FResult)
      requires Open() && fptr < objsize
      modifies this`sclust, this`dirty, this`chain, this`secs, this`objsize, this`content, vol, vol.win
      ensures Shell()
      ensures res == Ok || (res == DiskErr && !vol.reliable)
      ensures res == Ok ==> Open() && objsize == fptr && content == old(content)[..fptr] && chain <= old(chain)
      ensures res == Ok ==>
                && |chain| == ClustersFor(vol.g, fptr)
                && AllFree(vol.fat, old(chain)[|chain|..])
      ensures old(Sound()) && res == Ok ==> Sound()
    {
      if fptr == 0 {
        assert chain != [] && sclust == chain[0] by { assert Look(0); SectorInChain(vol.g, chain, 0); }
        res := Shorten(sclust, 0, 0);
      } else {
        res := CutAtPointer();
      }
    }

    /** Cut the file at the pointer: the bytes before it stay, and the clusters behind it become free. */
    method Truncate() returns (res: FResult)
      requires Valid()
      modifies this, vol, vol.win
      ensures Valid()
      ensures old(err) != Ok ==> res == err == old(err)
      ensures old(err) == Ok && !canWrite ==> res == Denied && err == Ok && content == old(content)
      ensures old(err) == Ok && canWrite && vol.reliable ==> res == Ok
      ensures old(err) == Ok && canWrite && res == Ok ==>
                && err == Ok && fptr == old(fptr) && objsize == fptr && content == old(content)[..fptr]
                && chain <= old(chain)
                && (fptr < old(objsize) ==>
                      && |chain| == ClustersFor(vol.g, fptr)
                      && AllFree(vol.fat, old(chain)[|chain|..]))
      ensures old(err) == Ok && canWrite && res == Ok && old(Sound()) ==> Sound()
    {
      if err != Ok {
        return err;
      }
      if !canWrite {
        return Denied;
      }
      res := Ok;
      if fptr < objsize {
        modified := true;
        res := CutOpen();
      }
      if res != Ok {
        Abort(res);
      }
    }

    // ---- synchronizing ----

    /** With a clean buffer, the device holds the bytes of the file in the clusters of its chain. */
    lemma Settled()
      requires Core() && !dirty
      ensures content == Bytes(SectorsOf(vol.g, vol.disk, chain), objsize)
      ensures content == Bytes(SectorsOf(vol.g, vol.log, chain), objsize)
      ensures OnVolume(vol.g, vol.fat, vol.disk, sclust, content)
    {
      assert Look(0) && Unfold(0);
      OnDevice(View(), vol.disk, vol.wflag, vol.win[..]);
      ChainOnVolume(vol.g, vol.fat, vol.disk, chain, objsize);
    }

    /** Bring all changes of a file to the device. */
    method SyncOpen() returns (res: FResult)
      requires Shell() && (err == Ok ==> Open() && (dirty ==> modified))
      modifies this`dirty, this`modified, vol`disk, vol`log, vol`wflag
      ensures Shell() && (err == Ok ==> Open() && (dirty ==> modified))
      ensures res == Ok || res == DiskErr
      ensures vol.reliable ==> res == Ok
      ensures res == Ok ==> !modified && (old(modified) ==> !dirty && !vol.wflag)
    {
      res := Ok;
      if modified {
        var clean, ok := Store();
        if clean {
          modified := false;
        }
        res := if ok then Ok else DiskErr;
      }
    }

    /** Write the buffer back, and the window of the volume if that succeeds. */
    method Store() returns (clean: bool, ok: bool)
      requires Shell() && (err == Ok ==> Open())
      modifies this`dirty, vol`disk, vol`log, vol`wflag
      ensures Shell() && (err == Ok ==> Open()) && (clean ==> !dirty) && (ok ==> clean && !vol.wflag)
      ensures vol.reliable ==> ok
    {
      clean := CleanAny();
      ok := clean;
      if clean {
        ok := SyncVolume();
      }
    }

    /** Write the buffer back if it is dirty, whether or not the file is in error. */
    method CleanAny() returns (ok: bool)
      requires Shell() && (err == Ok ==> Open())
      modifies this`dirty, vol`disk, vol`log
      ensures Shell() && (err == Ok ==> Open()) && (ok ==> !dirty)
      ensures vol.reliable ==> ok
    {
      if err == Ok {
        ok := Clean();
      } else {
        ok := WriteBuffer();
      }
    }

    /** Bring all changes to the device, if there are any; a former error does not matter. Afterwards the device holds
        the bytes of the file: whoever opens a file with the same first cluster and size finds them. */
    method Sync() returns (res: FResult)
      requires Valid()
      modifies this`dirty, this`modified, vol`disk, vol`log, vol`wflag
      ensures Valid()
      ensures res == Ok || res == DiskErr
      ensures vol.reliable ==> res == Ok
      ensures res == Ok && old(modified) ==> !dirty && !modified && !vol.wflag
      ensures err == res == Ok ==>
                && !dirty && !modified
                && content == Bytes(SectorsOf(vol.g, vol.disk, chain), objsize)
                && content == Bytes(SectorsOf(vol.g, vol.log, chain), objsize)
                && OnVolume(vol.g, vol.fat, vol.disk, sclust, content)
    {
      res := SyncOpen();
      if err == Ok && res == Ok {
        Settled();
      }
    }

    /** Write the window of the volume back. */
    method SyncVolume() returns (ok: bool)
      requires Shell() && (err == Ok ==> Open())
      modifies vol`disk, vol`wflag
      ensures Shell() && (err == Ok ==> Open())
      ensures ok ==> !vol.wflag
      ensures vol.reliable ==> ok
    {
      ok := vol.SyncWindow();
    }
  }
}
