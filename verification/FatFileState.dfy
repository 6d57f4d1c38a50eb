/**
 What an open file keeps true of itself and of the volume it lies on, and how flushing,
 loading, writing, stretching and cutting keep it so.
 */
module FatFileState {
  import opened ByteSeqs
  import opened FatDisk
  import opened FatChains
  import opened FatLayout

  /** Byte i lies where the table leads: follow the links from the first cluster, one for every csize sectors. */
  ghost predicate OnVolumeAt(g: Geometry, fat: seq<nat>, log: seq<Sector>, first: nat, bytes: seq<byte>, i: nat)
    requires i < |bytes|
  {
    && g.csize > 0
    && var c := Follow(fat, first, Quot(i / 512, g.csize));
       var s := g.Clst2Sect(c) + Rem(i / 512, g.csize);
       && g.IsCluster(c) && s < |log|
       && bytes[i] == log[s][i % 512]
  }

  /** The bytes of a file, found in the sectors of a disk. */
  ghost predicate OnVolume(g: Geometry, fat: seq<nat>, log: seq<Sector>, first: nat, bytes: seq<byte>) {
    forall i: nat {:trigger OnVolumeAt(g, fat, log, first, bytes, i)} ::
      i < |bytes| ==> OnVolumeAt(g, fat, log, first, bytes, i)
  }

  /** So byte i is byte i mod 512 of sector (i div 512) mod csize of the cluster that is (i div 512) div csize links
      behind the first one; clusters of csize sectors follow each other from the start of the data region on. */
  lemma WhereByte(g: Geometry, fat: seq<nat>, log: seq<Sector>, first: nat, bytes: seq<byte>, i: nat)
    returns (k: nat, c: nat, s: nat)
    requires g.csize > 0 && OnVolume(g, fat, log, first, bytes) && i < |bytes|
    ensures k == i / 512 / g.csize && c == Follow(fat, first, k) && 2 <= c < g.nFatent
    ensures s == g.database + g.csize * (c - 2) + i / 512 % g.csize
    ensures s < |log| && bytes[i] == log[s][i % 512]
  {
    assert OnVolumeAt(g, fat, log, first, bytes, i);
    k := Quot(i / 512, g.csize);
    c := Follow(fat, first, k);
    s := g.Clst2Sect(c) + Rem(i / 512, g.csize);
    RawPlace(g, c, i / 512);
  }

  lemma ChainOnVolume(g: Geometry, fat: seq<nat>, log: seq<Sector>, ch: seq<nat>, size: nat)
    requires g.Sane() && g.DataFits() && |log| == g.nSectors && Clusters(g, ch) && size <= Times(g.csize, |ch|) * 512
    requires ch != [] ==> IsChain(fat, ch)
    ensures OnVolume(g, fat, log, if ch == [] then 0 else ch[0], Bytes(SectorsOf(g, log, ch), size))
  {
    var first, bytes := if ch == [] then 0 else ch[0], Bytes(SectorsOf(g, log, ch), size);
    forall i: nat | i < |bytes| ensures OnVolumeAt(g, fat, log, first, bytes, i) {
      ByteOnVolume(g, fat, log, ch, size, i);
    }
  }

  lemma ByteOnVolume(g: Geometry, fat: seq<nat>, log: seq<Sector>, ch: seq<nat>, size: nat, i: nat)
    requires g.Sane() && g.DataFits() && |log| == g.nSectors && Clusters(g, ch) && i < size <= Times(g.csize, |ch|) * 512
    requires IsChain(fat, ch)
    ensures OnVolumeAt(g, fat, log, ch[0], Bytes(SectorsOf(g, log, ch), size), i)
  {
    ByteAtPlace(g, log, ch, size, i);
    ChainFollows(fat, ch, Quot(i / 512, g.csize));
  }

  /** What a cluster of another file or directory holds: its FAT entry and its sectors. */
  datatype Kept = Kept(entry: nat, sectors: seq<Sector>)

  datatype State = State(
    g: Geometry,
    fat: seq<nat>,           // the file allocation table
    log: seq<Sector>,        // the logical disk
    winsect: nat,            // the sector in the volume's window
    chain: seq<nat>,         // the clusters of the file
    secs: seq<Sector>,       // its sectors
    sclust: nat,             // first cluster, 0 if none
    sect: nat,               // sector in the file's buffer, 0 if none
    dirty: bool,             // buffer needs to be written back
    slot: nat,               // file sector in a dirty buffer
    buf: Sector,             // the buffer
    others: map<nat, Kept>,  // what allocated clusters outside the file hold
    below: seq<Sector>,      // what the sectors before the data region hold
    room: nat)               // clusters the file has or could have
  {
    /** Basic sizes, needed to speak of the rest. */
    ghost predicate Sized() {
      && g.Sane() && g.DataFits() && |log| == g.nSectors && |fat| == g.nFatent
      && Clusters(g, chain)
      && |secs| == Times(g.csize, |chain|)
    }

    /** sclust starts the chain. */
    ghost predicate Chained() {
      && sclust == (if chain == [] then 0 else chain[0])
      && (chain != [] ==> IsChain(fat, chain))
    }

    /** The file's sectors are those of its chain, seen through a dirty buffer. */
    ghost predicate Stored()
      requires Sized()
    {
      Holds(g, Seen(log, dirty, sect, buf), chain, secs)
    }

    /** The buffer is empty or holds a data sector; if clean it agrees with the disk, if dirty the sector is one
        of the file's. */
    ghost predicate Buffered()
      requires Sized()
    {
      && (sect != 0 ==> g.database <= sect < |log| && sect != winsect)
      && (sect != 0 && !dirty ==> buf == log[sect])
      && (dirty ==> sect != 0 && IsSlot(g, chain, slot, sect))
    }

    /** Every cluster that is free could become the file's. */
    ghost predicate Roomy()
      requires Sized()
    {
      |chain| + FreeClusters(fat) == room
    }

    ghost predicate Ok() {
      && Sized() && Chained() && Stored() && Buffered() && Roomy()
      && WindowOff(g, chain, winsect)
      && RestKept(g, fat, log, chain, others, below)
    }
  }

  /** A disk seen through a dirty sector buffer. */
  function Seen(log: seq<Sector>, dirty: bool, sect: nat, buf: Sector): (seen: seq<Sector>)
    ensures |seen| == |log|
  {
    if dirty && sect < |log| then log[sect := buf] else log
  }

  predicate OffCluster(g: Geometry, c: nat, s: nat)
    requires c >= 2
  {
    !(g.First(c) <= s < g.First(c) + g.csize)
  }

  /** The window holds no sector of the chain. */
  ghost predicate WindowOff(g: Geometry, ch: seq<nat>, winsect: nat)
    requires Clusters(g, ch)
  {
    forall i :: 0 <= i < |ch| ==> OffCluster(g, ch[i], winsect)
  }

  /** sect is file sector slot. */
  ghost predicate IsSlot(g: Geometry, ch: seq<nat>, slot: nat, sect: nat)
    requires g.csize > 0 && Clusters(g, ch)
  {
    Quot(slot, g.csize) < |ch| && At(g, ch, slot) == sect
  }

  /** c is the cluster of the chain that holds byte i. */
  ghost predicate InCluster(g: Geometry, ch: seq<nat>, i: nat, c: nat)
    requires g.csize > 0
  {
    Quot(i / 512, g.csize) < |ch| && c == ch[Quot(i / 512, g.csize)]
  }

  /** A cursor at byte p: the current cluster is that of the byte before it, and inside a sector the buffer
      holds that sector. */
  ghost predicate CursorAt(g: Geometry, ch: seq<nat>, p: nat, clust: nat, sect: nat)
    requires g.csize > 0 && Clusters(g, ch)
  {
    && (p > 0 ==> InCluster(g, ch, p - 1, clust))
    && (p % 512 != 0 ==> IsSlot(g, ch, p / 512, sect))
  }

  lemma CursorInSector(g: Geometry, ch: seq<nat>, p: nat, n: nat, clust: nat, sect: nat)
    requires g.csize > 0 && Clusters(g, ch) && InCluster(g, ch, p, clust) && IsSlot(g, ch, p / 512, sect)
    requires 0 < n && p % 512 + n <= 512
    ensures CursorAt(g, ch, p + n, clust, sect)
  {
    AdvancedInSector(g, p, n);
  }

  lemma CursorInCluster(g: Geometry, ch: seq<nat>, p: nat, cc: nat, clust: nat, sect: nat)
    requires g.csize > 0 && Clusters(g, ch) && InCluster(g, ch, p, clust)
    requires cc > 0 && p % 512 == 0 && Rem(p / 512, g.csize) + cc <= g.csize
    ensures CursorAt(g, ch, p + cc * 512, clust, sect)
  {
    AdvancedInCluster(g, p, cc);
  }

  /** A cursor rest bytes into the k-th cluster, with that sector in the buffer if it is inside one. */
  lemma CursorPlaced(g: Geometry, ch: seq<nat>, k: nat, rest: nat, sect: nat)
    requires g.csize > 0 && Clusters(g, ch) && k < |ch| && 0 < rest <= g.ClusterBytes()
    requires rest % 512 != 0 ==> sect == g.First(ch[k]) + rest / 512
    ensures var p := Times(g.ClusterBytes(), k) + rest;
            && CursorAt(g, ch, p, ch[k], sect)
            && p % 512 == rest % 512
            && (p % 512 != 0 ==> p / 512 < Times(g.csize, |ch|) && IsSlot(g, ch, p / 512, sect))
  {
    var p := Times(g.ClusterBytes(), k) + rest;
    PositionInCluster(g, k, rest);
    assert InCluster(g, ch, p - 1, ch[k]);
    if rest % 512 != 0 {
      SectorInChain(g, ch, p / 512);
      assert At(g, ch, p / 512) == g.First(ch[k]) + rest / 512;
    }
  }

  /** Inside a cluster, the cluster of the byte before the cursor is that of the byte at it. */
  lemma CursorInside(g: Geometry, ch: seq<nat>, p: nat, clust: nat, sect: nat)
    requires g.csize > 0 && Clusters(g, ch) && CursorAt(g, ch, p, clust, sect)
    requires p > 0 && (p % 512 != 0 || Rem(p / 512, g.csize) != 0)
    ensures InCluster(g, ch, p, clust)
  {
    InnerCluster(g, p);
  }

  /** The clusters up to that of the byte before the cursor are enough for it. */
  lemma CursorCut(g: Geometry, ch: seq<nat>, n: nat, p: nat, clust: nat, sect: nat)
    requires g.csize > 0 && Clusters(g, ch) && CursorAt(g, ch, p, clust, sect)
    requires p > 0 && n == Quot((p - 1) / 512, g.csize) + 1 && n <= |ch|
    ensures CursorAt(g, ch[..n], p, clust, sect)
  {
    if p % 512 != 0 {
      assert p / 512 == (p - 1) / 512;
    }
  }

  ghost predicate OtherKept(g: Geometry, fat: seq<nat>, log: seq<Sector>, ch: seq<nat>, c: nat, k: Kept) {
    && 2 <= c < |fat| && g.IsCluster(c) && c !in ch
    && fat[c] == k.entry != 0
    && g.First(c) + g.csize <= |log|
    && log[g.First(c)..g.First(c) + g.csize] == k.sectors
  }

  /** Nothing outside the file is touched: allocated clusters of others keep entry and data, and the
      sectors before the data region keep theirs but for the FATs. */
  ghost predicate RestKept(g: Geometry, fat: seq<nat>, log: seq<Sector>, ch: seq<nat>,
                           others: map<nat, Kept>, below: seq<Sector>)
  {
    && (forall c {:trigger OtherKept(g, fat, log, ch, c, others[c])} ::
          c in others ==> OtherKept(g, fat, log, ch, c, others[c]))
    && |below| == g.database <= |log|
    && forall s :: 0 <= s < g.database && !g.InFat(s) && !g.InMirror(s) ==> log[s] == below[s]
  }

  // ---- the rest of the volume ----

  ghost function Holding(g: Geometry, fat: seq<nat>, log: seq<Sector>, c: nat): Kept
    requires g.Sane() && g.DataFits() && |fat| == g.nFatent && |log| == g.nSectors && g.IsCluster(c)
  {
    ClusterInData(g, c, g.csize - 1);
    Kept(fat[c], log[g.First(c)..g.First(c) + g.csize])
  }

  /** What the allocated clusters outside a chain hold. */
  ghost function Outside(g: Geometry, fat: seq<nat>, log: seq<Sector>, ch: seq<nat>): (m: map<nat, Kept>)
    requires g.Sane() && g.DataFits() && |fat| == g.nFatent && |log| == g.nSectors
    ensures forall c :: g.IsCluster(c) && c !in ch && fat[c] != 0 ==> c in m
    ensures forall c {:trigger OtherKept(g, fat, log, ch, c, m[c])} :: c in m ==> OtherKept(g, fat, log, ch, c, m[c])
  {
    var m := map c: nat | 2 <= c < |fat| && c !in ch && fat[c] != 0 :: Holding(g, fat, log, c);
    assert forall c :: c in m ==> OtherKept(g, fat, log, ch, c, m[c]) by {
      forall c | c in m ensures OtherKept(g, fat, log, ch, c, m[c]) {
        ClusterInData(g, c, g.csize - 1);
      }
    }
    m
  }

  /** The state of a file that has just been opened. */
  ghost function Opened(g: Geometry, fat: seq<nat>, log: seq<Sector>, winsect: nat, ch: seq<nat>, buf: Sector): State
    requires g.Sane() && g.DataFits() && |fat| == g.nFatent && |log| == g.nSectors && Clusters(g, ch)
  {
    State(g, fat, log, winsect, ch, SectorsOf(g, log, ch), if ch == [] then 0 else ch[0], 0, false, 0, buf,
          Outside(g, fat, log, ch), log[..g.database], |ch| + FreeClusters(fat))
  }

  lemma OpenedOk(g: Geometry, fat: seq<nat>, log: seq<Sector>, winsect: nat, ch: seq<nat>, buf: Sector)
    requires g.Sane() && g.DataFits() && |fat| == g.nFatent && |log| == g.nSectors && Clusters(g, ch)
    requires (ch != [] ==> IsChain(fat, ch)) && WindowOff(g, ch, winsect)
    ensures Opened(g, fat, log, winsect, ch, buf).Ok()
  {
  }

  /** A write inside one cluster of the chain leaves any other cluster alone. */
  lemma OtherAfterWrite(g: Geometry, fat: seq<nat>, log: seq<Sector>, log': seq<Sector>, ch: seq<nat>,
                        c: nat, k: Kept, q: nat, n: nat)
    requires g.Sane() && Clusters(g, ch) && OtherKept(g, fat, log, ch, c, k) && |log'| == |log|
    requires Quot(q, g.csize) < |ch| && Rem(q, g.csize) + n <= g.csize
    requires forall s :: 0 <= s < |log| && !(At(g, ch, q) <= s < At(g, ch, q) + n) ==> log'[s] == log[s]
    ensures OtherKept(g, fat, log', ch, c, k)
  {
    var lo, hi := g.First(c), g.First(c) + g.csize;
    var d := ch[Quot(q, g.csize)];
    forall s | lo <= s < hi ensures log'[s] == log[s] {
      if At(g, ch, q) <= s < At(g, ch, q) + n {
        ClustersDisjoint(g, d, s - g.First(d), c, s - lo);
      }
    }
    assert log'[lo..hi] == log[lo..hi];
  }

  /** So the rest of the volume stays as it was. */
  lemma RestAfterWrite(g: Geometry, fat: seq<nat>, log: seq<Sector>, log': seq<Sector>, ch: seq<nat>,
                       others: map<nat, Kept>, below: seq<Sector>, q: nat, n: nat)
    requires g.Sane() && Clusters(g, ch) && RestKept(g, fat, log, ch, others, below) && |log'| == |log|
    requires Quot(q, g.csize) < |ch| && Rem(q, g.csize) + n <= g.csize
    requires forall s :: 0 <= s < |log| && !(At(g, ch, q) <= s < At(g, ch, q) + n) ==> log'[s] == log[s]
    ensures RestKept(g, fat, log', ch, others, below)
  {
    forall c | c in others ensures OtherKept(g, fat, log', ch, c, others[c]) {
      assert OtherKept(g, fat, log, ch, c, others[c]);
      OtherAfterWrite(g, fat, log, log', ch, c, others[c], q, n);
    }
  }

  // ---- the window ----

  /** A run inside one cluster of the chain is not in a window that is off the chain. */
  lemma RunOffWindow(g: Geometry, ch: seq<nat>, winsect: nat, q: nat, n: nat)
    requires g.Sane() && Clusters(g, ch) && WindowOff(g, ch, winsect)
    requires Quot(q, g.csize) < |ch| && Rem(q, g.csize) + n <= g.csize
    ensures !(At(g, ch, q) <= winsect < At(g, ch, q) + n)
  {
    assert OffCluster(g, ch[Quot(q, g.csize)], winsect);
  }

  /** A window in the FAT, or an invalid one, is off every chain. */
  lemma FatWindowOff(g: Geometry, ch: seq<nat>, winsect: nat)
    requires g.Sane() && g.DataFits() && Clusters(g, ch) && (g.InFat(winsect) || winsect == NO_SECTOR)
    ensures WindowOff(g, ch, winsect)
  {
    forall i | 0 <= i < |ch| ensures OffCluster(g, ch[i], winsect) {
      ClusterInData(g, ch[i], g.csize - 1);
    }
  }

  /** Moving the window into the FAT disturbs no file. */
  lemma WindowMoved(v: State, winsect: nat)
    requires v.Ok() && (winsect == v.winsect || v.g.InFat(winsect) || winsect == NO_SECTOR)
    ensures v.(winsect := winsect).Ok()
  {
    if winsect != v.winsect {
      FatWindowOff(v.g, v.chain, winsect);
    }
  }

  // ---- the buffer ----

  /** Flushing a dirty buffer does not change the file, whether or not the write succeeds. */
  lemma Flushed(v: State, log': seq<Sector>)
    requires v.Ok() && v.dirty && |log'| == |v.log|
    requires forall s :: 0 <= s < |v.log| && s != v.sect ==> log'[s] == v.log[s]
    ensures v.(log := log').Ok()
    ensures log'[v.sect] == v.buf ==> v.(log := log', dirty := false).Ok()
  {
    assert Seen(log', true, v.sect, v.buf) == Seen(v.log, true, v.sect, v.buf);
    assert log'[v.sect] == v.buf ==> log' == Seen(v.log, true, v.sect, v.buf);
    RestAfterWrite(v.g, v.fat, v.log, log', v.chain, v.others, v.below, v.slot, 1);
  }

  /** A clean buffer may be loaded with any sector of the file. */
  lemma Loaded(v: State, q: nat, buf': Sector)
    requires v.Ok() && !v.dirty && q < |v.secs|
    ensures Quot(q, v.g.csize) < |v.chain|
    ensures v.g.database <= At(v.g, v.chain, q) < v.g.nSectors && At(v.g, v.chain, q) != v.winsect
    ensures buf' == v.log[At(v.g, v.chain, q)] ==> v.(sect := At(v.g, v.chain, q), buf := buf').Ok()
  {
    AtInData(v.g, v.chain, q);
    RunOffWindow(v.g, v.chain, v.winsect, q, 1);
  }

  /** Part of the buffer is the file's bytes at the pointer. */
  lemma BufferPart(v: State, size: nat, p: nat, n: nat)
    requires v.Ok() && size <= |v.secs| * 512 && p + n <= size && p < size && p % 512 + n <= 512
    requires IsSlot(v.g, v.chain, p / 512, v.sect)
    ensures v.buf[p % 512..p % 512 + n] == Bytes(v.secs, size)[p..p + n]
  {
    BufferIs(v, p / 512);
    var part, all := v.buf[p % 512..p % 512 + n], Bytes(v.secs, size);
    forall i | 0 <= i < n ensures part[i] == all[p + i] {
      BytesAt(v.secs, size, p + i);
      assert (p + i) / 512 == p / 512 && (p + i) % 512 == p % 512 + i;
    }
    assert part == all[p..p + n];
  }

  /** What the buffer holds for file sector q is that sector of the file. */
  lemma BufferIs(v: State, q: nat)
    requires v.Ok() && q < |v.secs| && IsSlot(v.g, v.chain, q, v.sect)
    ensures v.buf == v.secs[q]
  {
    assert HoldsAt(v.g, Seen(v.log, v.dirty, v.sect, v.buf), v.chain, v.secs, q);
    AtInData(v.g, v.chain, q);
  }

  /** How many of n bytes a file may take at p: its size must fit in 32 bits. */
  function Writable(p: nat, n: nat): (r: nat)
    requires p <= 0xFFFF_FFFF && n <= 0xFFFF_FFFF
    ensures r <= n && p + r <= 0xFFFF_FFFF && (r < n ==> p + r == 0xFFFF_FFFF)
  {
    if (p + n) % 0x1_0000_0000 < p then 0xFFFF_FFFF - p else n
  }

  /** A run of sectors inside one cluster read from disk, with a dirty buffer put in its place. */
  function Patched(data: seq<Sector>, at: nat, v: State): (r: seq<Sector>)
    ensures |r| == |data|
  {
    if v.dirty && at <= v.sect < at + |data| then data[v.sect - at := v.buf] else data
  }

  lemma PatchedIsSeen(v: State, at: nat, n: nat)
    requires at + n <= |v.log|
    ensures Patched(v.log[at..at + n], at, v) == Seen(v.log, v.dirty, v.sect, v.buf)[at..at + n]
  {
  }

  /** Where a run of file sectors inside one cluster lies. */
  lemma RunPlace(v: State, q: nat, n: nat)
    requires v.Ok() && q < |v.secs| && Rem(q, v.g.csize) + n <= v.g.csize
    ensures Quot(q, v.g.csize) < |v.chain| && q + n <= |v.secs|
    ensures var at := At(v.g, v.chain, q);
            v.g.database <= at && at + n <= v.g.nSectors && !(at <= v.winsect < at + n)
  {
    RunFits(v.g, v.chain, q, n);
    RunOffWindow(v.g, v.chain, v.winsect, q, n);
  }

  /** What is read there is what the file holds. */
  lemma ReadThrough(v: State, q: nat, n: nat)
    requires v.Ok() && q < |v.secs| && Rem(q, v.g.csize) + n <= v.g.csize
    ensures Quot(q, v.g.csize) < |v.chain| && q + n <= |v.secs| && At(v.g, v.chain, q) + n <= |v.log|
    ensures var at := At(v.g, v.chain, q); Patched(v.log[at..at + n], at, v) == v.secs[q..q + n]
  {
    RunPlace(v, q, n);
    var at := At(v.g, v.chain, q);
    PatchedIsSeen(v, at, n);
    HoldsRun(v.g, Seen(v.log, v.dirty, v.sect, v.buf), v.chain, v.secs, q, n);
  }

  lemma ReadThroughAt(v: State, p: nat, s: nat, n: nat, size: nat)
    requires v.Ok() && p % 512 == 0 && IsSlot(v.g, v.chain, p / 512, s) && p + n * 512 <= size <= |v.secs| * 512
    requires 0 < n && Rem(p / 512, v.g.csize) + n <= v.g.csize
    ensures v.g.database <= s && s + n <= v.g.nSectors && !(s <= v.winsect < s + n) && v.sect <= 0xFFFF_FFFF
    ensures Flatten(Patched(v.log[s..s + n], s, v), 0, n) == Bytes(v.secs, size)[p..p + n * 512]
  {
    var q := p / 512;
    assert q * 512 == p && (q + n) * 512 == p + n * 512;
    RunPlace(v, q, n);
    ReadThrough(v, q, n);
    BytesOfRun(v.secs, q, n, size);
  }

  /** Changing the buffer while it holds file sector q changes that sector of the file. */
  lemma Overwritten(v: State, q: nat, sect: nat, buf': Sector)
    requires v.Ok() && q < |v.secs| && IsSlot(v.g, v.chain, q, sect) && (v.dirty ==> v.sect == sect)
    ensures v.(sect := sect, buf := buf', dirty := true, slot := q, secs := v.secs[q := buf']).Ok()
  {
    var seen, seen' := Seen(v.log, v.dirty, v.sect, v.buf), Seen(v.log, true, sect, buf');
    var w := v.(sect := sect, buf := buf', dirty := true, slot := q, secs := v.secs[q := buf']);
    AtInData(v.g, v.chain, q);
    RunOffWindow(v.g, v.chain, v.winsect, q, 1);
    forall p: nat | p < |w.secs| ensures HoldsAt(v.g, seen', v.chain, w.secs, p) {
      assert HoldsAt(v.g, seen, v.chain, v.secs, p);
      if p != q && At(v.g, v.chain, p) == sect {
        ChainIsSimple(v.fat, v.chain);
        AtInjective(v.g, v.chain, p, q);
      }
    }
  }

  /** Data put into the buffer as part of the sector at p, which becomes dirty; w is the file then. */
  lemma PutInBuffer(v: State, size: nat, p: nat, s: nat, data: seq<byte>) returns (w: State)
    requires v.Ok() && IsSlot(v.g, v.chain, p / 512, s) && (v.dirty ==> v.sect == s) && p / 512 < |v.secs|
    requires p <= size <= |v.secs| * 512 && p % 512 + |data| <= 512
    requires v.buf == v.secs[p / 512] || (p % 512 == 0 && p == size)
    ensures w.Ok() && |w.secs| == |v.secs| && p + |data| <= |w.secs| * 512
    ensures w == v.(sect := s, dirty := true, slot := p / 512, buf := Replace(v.buf, p % 512, data), secs := w.secs)
    ensures Bytes(w.secs, if p + |data| > size then p + |data| else size) == Spliced(Bytes(v.secs, size), p, data)
  {
    var q, buf': Sector := p / 512, Replace(v.buf, p % 512, data);
    Overwritten(v, q, s, buf');
    SplicedPart(v.secs, size, p, v.buf, data);
    w := v.(sect := s, buf := buf', dirty := true, slot := q, secs := v.secs[q := buf']);
  }

  /** Direct transfer of whole sectors inside one cluster, the buffer being clean. */
  lemma Transferred(v: State, q: nat, data: seq<Sector>)
    requires v.Ok() && !v.dirty && q < |v.secs| && Rem(q, v.g.csize) + |data| <= v.g.csize
    ensures Quot(q, v.g.csize) < |v.chain| && q + |data| <= |v.secs|
    ensures var at := At(v.g, v.chain, q);
            && v.g.database <= at && at + |data| <= v.g.nSectors && !(at <= v.winsect < at + |data|)
            && var w := v.(log := Replace(v.log, at, data), secs := Replace(v.secs, q, data));
               if at <= v.sect < at + |data| then w.(buf := data[v.sect - at]).Ok() else w.Ok()
  {
    RunFits(v.g, v.chain, q, |data|);
    RunOffWindow(v.g, v.chain, v.winsect, q, |data|);
    if v.chain != [] { ChainIsSimple(v.fat, v.chain); }
    HoldsWritten(v.g, v.log, v.chain, v.secs, q, data);
    var at := At(v.g, v.chain, q);
    RestAfterWrite(v.g, v.fat, v.log, Replace(v.log, at, data), v.chain, v.others, v.below, q, |data|);
  }

  // ---- the chain ----

  /** FAT sectors and entries of the file's own chain and of free clusters may change. */
  lemma RestAfterFat(g: Geometry, fat: seq<nat>, fat': seq<nat>, log: seq<Sector>, log': seq<Sector>,
                     ch: seq<nat>, ch': seq<nat>, others: map<nat, Kept>, below: seq<Sector>)
    requires g.Sane() && RestKept(g, fat, log, ch, others, below) && |fat'| == |fat| && SameOffFat(g, log, log')
    requires forall c :: 0 <= c < |fat| && c !in ch && fat[c] != 0 ==> c !in ch' && fat'[c] == fat[c]
    ensures RestKept(g, fat', log', ch', others, below)
  {
    forall c | c in others ensures OtherKept(g, fat', log', ch', c, others[c]) {
      assert OtherKept(g, fat, log, ch, c, others[c]);
      var lo, hi := g.First(c), g.First(c) + g.csize;
      assert forall s :: lo <= s < hi ==> log'[s] == log[s];
      assert log'[lo..hi] == log[lo..hi];
    }
  }

  /** The state after free cluster ncl has been appended to the chain. */
  function Appended(v: State, ncl: nat, fat': seq<nat>, log': seq<Sector>, winsect': nat): State
    requires ncl >= 2 && v.g.First(ncl) + v.g.csize <= |log'|
  {
    var seen := Seen(log', v.dirty, v.sect, v.buf);
    v.(fat := fat', log := log', winsect := winsect', chain := v.chain + [ncl],
       secs := v.secs + seen[v.g.First(ncl)..v.g.First(ncl) + v.g.csize],
       sclust := if v.chain == [] then ncl else v.sclust)
  }

  lemma StretchedSectors(v: State, ncl: nat, fat': seq<nat>, log': seq<Sector>, winsect': nat)
    requires v.Sized() && v.Stored() && v.g.IsCluster(ncl) && ncl !in v.chain
    requires |fat'| == |v.fat| && SameOffFat(v.g, v.log, log')
    ensures v.g.First(ncl) + v.g.csize <= |log'|
    ensures var w := Appended(v, ncl, fat', log', winsect'); w.Sized() && w.Stored()
  {
    var seen, seen' := Seen(v.log, v.dirty, v.sect, v.buf), Seen(log', v.dirty, v.sect, v.buf);
    HoldsSame(v.g, seen, seen', v.chain, v.secs);
    HoldsStretched(v.g, seen', v.chain, v.secs, ncl);
  }

  lemma Stretched(v: State, ncl: nat, eoc: nat, fat': seq<nat>, log': seq<Sector>, winsect': nat)
    requires v.Ok() && v.g.IsCluster(ncl) && v.fat[ncl] == 0 && eoc >= |v.fat|
    requires fat' == Linked(v.fat, if v.chain == [] then 0 else v.chain[|v.chain| - 1], ncl, eoc)
    requires SameOffFat(v.g, v.log, log') && v.g.InFat(winsect')
    ensures v.g.First(ncl) + v.g.csize <= |log'|
    ensures Appended(v, ncl, fat', log', winsect').Ok()
  {
    var g := v.g;
    if v.chain != [] {
      StretchChain(v.fat, v.chain, ncl, eoc);
    } else {
      assert IsChain(fat', [ncl]);
    }
    TakenCount(v.fat, if v.chain == [] then 0 else v.chain[|v.chain| - 1], ncl, eoc);
    StretchedSectors(v, ncl, fat', log', winsect');
    var w := Appended(v, ncl, fat', log', winsect');
    FatWindowOff(g, w.chain, winsect');
    RestAfterFat(g, v.fat, fat', v.log, log', v.chain, w.chain, v.others, v.below);
  }

  /** What create_chain does to the volume when it returns c for clst without a disk error. */
  ghost predicate Created(v: State, clst: nat, c: nat, fat': seq<nat>, log': seq<Sector>, winsect': nat) {
    && |fat'| == |v.fat| && SameOffFat(v.g, v.log, log')
    && (winsect' == v.winsect || v.g.InFat(winsect') || winsect' == NO_SECTOR)
    && (c == 0 ==> clst == 0 || EndOfChain(v.fat, clst))
    && if !v.g.IsCluster(c) || (2 <= clst < |v.fat| && v.fat[clst] == c) then fat' == v.fat && log' == v.log
       else && c < |v.fat| && v.fat[c] == 0 && clst < |v.fat| && (clst == 0 || EndOfChain(v.fat, clst))
            && fat' == Linked(v.fat, clst, c, v.g.kind.Mask()) && v.g.InFat(winsect')
  }

  /** The state then. */
  function Grown(v: State, clst: nat, c: nat, fat': seq<nat>, log': seq<Sector>, winsect': nat): State {
    if !v.g.IsCluster(c) || (2 <= clst < |v.fat| && v.fat[clst] == c) || v.g.First(c) + v.g.csize > |log'|
    then v.(fat := fat', log := log', winsect := winsect')
    else Appended(v, c, fat', log', winsect')
  }

  /** The file follows its chain to the cluster returned, which may have been appended to it. */
  lemma GrownOk(v: State, clst: nat, k: nat, c: nat, fat': seq<nat>, log': seq<Sector>, winsect': nat)
    requires v.Ok() && (if clst == 0 then v.chain == [] else k < |v.chain| && clst == v.chain[k])
    requires Created(v, clst, c, fat', log', winsect')
    ensures var w := Grown(v, clst, c, fat', log', winsect');
            && w.Ok() && v.chain <= w.chain && v.secs <= w.secs
            && w == v.(fat := fat', log := log', winsect := winsect', chain := w.chain, secs := w.secs, sclust := w.sclust)
            && w.sclust == (if v.sclust == 0 && v.g.IsCluster(c) then c else v.sclust)
            && (!v.g.IsCluster(c) ==> w.chain == v.chain)
            && (c == 0 ==> |w.chain| == if clst == 0 then 0 else k + 1)
            && (v.g.IsCluster(c) ==> var j := if clst == 0 then 0 else k + 1;
                  && j < |w.chain| && w.chain[j] == c
                  && (w.chain == v.chain || |v.chain| == j == |w.chain| - 1))
  {
    if clst != 0 {
      ChainIsSimple(v.fat, v.chain);
      assert v.fat[clst] == (if k + 1 < |v.chain| then v.chain[k + 1] else v.fat[v.chain[|v.chain| - 1]]);
    }
    if !v.g.IsCluster(c) || (2 <= clst < |v.fat| && v.fat[clst] == c) {
      WindowMoved(v, winsect');
    } else {
      Stretched(v, c, v.g.kind.Mask(), fat', log', winsect');
    }
  }

  /** The state after the chain has been cut to n clusters and a dirty buffer has been written back. */
  function Shortened(v: State, n: nat, fat': seq<nat>, log': seq<Sector>, winsect': nat): State
    requires n <= |v.chain| && Times(v.g.csize, n) <= |v.secs|
  {
    v.(fat := fat', log := Seen(log', v.dirty, v.sect, v.buf), winsect := winsect', dirty := false,
       chain := v.chain[..n], secs := v.secs[..Times(v.g.csize, n)], sclust := if n == 0 then 0 else v.sclust)
  }

  lemma Truncated(v: State, n: nat, eoc: nat, fat': seq<nat>, log': seq<Sector>, winsect': nat)
    requires v.Ok() && n < |v.chain| && eoc >= |v.fat|
    requires fat' == Cut(v.fat, v.chain[n], if n == 0 then 0 else v.chain[n - 1], eoc)
    requires SameOffFat(v.g, v.log, log') && v.g.InFat(winsect')
    ensures Times(v.g.csize, n) <= |v.secs|
    ensures var w := Shortened(v, n, fat', log', winsect');
            && w.Ok() && w.chain == v.chain[..n] && w.secs == v.secs[..Times(v.g.csize, n)]
            && w.sclust == (if n == 0 then 0 else v.sclust)
            && w == v.(fat := fat', log := Seen(log', v.dirty, v.sect, v.buf), winsect := winsect', dirty := false,
                       chain := w.chain, secs := w.secs, sclust := w.sclust)
  {
    var g, seen, seen' := v.g, Seen(v.log, v.dirty, v.sect, v.buf), Seen(log', v.dirty, v.sect, v.buf);
    HoldsSame(g, seen, seen', v.chain, v.secs);
    HoldsCut(g, seen', v.chain, v.secs, n);
    var w := Shortened(v, n, fat', log', winsect');
    CutAnywhere(v.fat, v.chain, n, eoc);
    CutCount(v.fat, v.chain, n, eoc);
    FatWindowOff(g, w.chain, winsect');
    RestAfterCut(v, n, fat', log');
  }

  lemma RestAfterCut(v: State, n: nat, fat': seq<nat>, log': seq<Sector>)
    requires v.Ok() && n <= |v.chain| && |fat'| == |v.fat| && SameOffFat(v.g, v.log, log')
    requires forall c :: 0 <= c < |v.fat| && c !in v.chain ==> fat'[c] == v.fat[c]
    ensures RestKept(v.g, fat', Seen(log', v.dirty, v.sect, v.buf), v.chain[..n], v.others, v.below)
  {
    var seen' := Seen(log', v.dirty, v.sect, v.buf);
    RestAfterFat(v.g, v.fat, fat', v.log, log', v.chain, v.chain, v.others, v.below);
    if v.dirty {
      RestAfterWrite(v.g, fat', log', seen', v.chain, v.others, v.below, v.slot, 1);
    }
    RestOfPart(v.g, fat', seen', v.chain, v.chain[..n], v.others, v.below);
  }

  lemma RestOfPart(g: Geometry, fat: seq<nat>, log: seq<Sector>, ch: seq<nat>, ch': seq<nat>,
                   others: map<nat, Kept>, below: seq<Sector>)
    requires RestKept(g, fat, log, ch, others, below) && forall c :: c in ch' ==> c in ch
    ensures RestKept(g, fat, log, ch', others, below)
  {
    forall c | c in others ensures OtherKept(g, fat, log, ch', c, others[c]) {
      assert OtherKept(g, fat, log, ch, c, others[c]);
    }
  }

  /** With a clean buffer, the device itself holds the file, whatever the window still holds back. */
  lemma OnDevice(v: State, disk: seq<Sector>, wflag: bool, win: seq<byte>)
    requires v.Ok() && !v.dirty && Shows(v.g, disk, wflag, v.winsect, win, v.log)
    ensures SectorsOf(v.g, disk, v.chain) == SectorsOf(v.g, v.log, v.chain) == v.secs
  {
    forall q: nat | q < |v.secs| ensures HoldsAt(v.g, disk, v.chain, v.secs, q) {
      AtInData(v.g, v.chain, q);
      assert HoldsAt(v.g, v.log, v.chain, v.secs, q);
      assert OffCluster(v.g, v.chain[Quot(q, v.g.csize)], v.winsect);
      QuotRem(q, v.g.csize);
    }
    HoldsUnique(v.g, disk, v.chain, v.secs, SectorsOf(v.g, disk, v.chain));
    HoldsUnique(v.g, v.log, v.chain, v.secs, SectorsOf(v.g, v.log, v.chain));
  }
}
