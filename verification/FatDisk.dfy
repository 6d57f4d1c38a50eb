/**
 Bytes, sectors and the layout of a FAT volume, as the FAT driver keeps them once a
 volume is mounted (the geometry part of the FATFS record).
 */
module FatDisk {
  import opened ByteSeqs

  type Sector = s: seq<byte> | |s| == 512 witness seq(512, _ => 0)

  /** Window position meaning "nothing valid is loaded", and the disk-error status of a FAT read. */
  const NO_SECTOR: nat := 0xFFFF_FFFF
  const DISK_ERROR: nat := 0xFFFF_FFFF

  /** Unsigned 32-bit subtraction, with its wrap-around. */
  function Sub32(a: nat, b: nat): (r: nat)
    ensures r < 0x1_0000_0000
  {
    (a - b) % 0x1_0000_0000
  }

  lemma Sub32InRange(a: nat, b: nat, n: nat)
    requires a <= 0xFFFF_FFFF && b + n <= 0x1_0000_0000
    ensures Sub32(a, b) < n <==> b <= a < b + n
    ensures b <= a ==> Sub32(a, b) == a - b
  {
    if a < b {
      assert Sub32(a, b) == a - b + 0x1_0000_0000;
    }
  }

  // ---- products and quotients of two variables, by repeated addition ----

  function Least(a: nat, b: nat): (r: nat)
    ensures r <= a && r <= b && (r == a || r == b)
  {
    if a < b then a else b
  }

  function Times(m: nat, n: nat): nat {
    if n == 0 then 0 else Times(m, n - 1) + m
  }

  function Quot(q: nat, d: nat): nat
    requires d > 0
  {
    if q < d then 0 else Quot(q - d, d) + 1
  }

  function Rem(q: nat, d: nat): (r: nat)
    requires d > 0
    ensures r < d
  {
    if q < d then q else Rem(q - d, d)
  }

  lemma {:induction false} TimesIsProduct(m: nat, n: nat)
    ensures Times(m, n) == m * n
    decreases n
  {
    if n > 0 {
      TimesIsProduct(m, n - 1);
      assert m * n == m * (n - 1) + m;
    }
  }

  lemma {:induction false} TimesMonotone(m: nat, a: nat, b: nat)
    requires a <= b
    ensures Times(m, a) <= Times(m, b)
    ensures a < b ==> Times(m, a) + m <= Times(m, b)
    decreases b
  {
    if a < b {
      TimesMonotone(m, a, b - 1);
    }
  }

  lemma {:induction false} QuotRem(q: nat, d: nat)
    requires d > 0
    ensures q == Times(d, Quot(q, d)) + Rem(q, d)
    decreases q
  {
    if q >= d {
      QuotRem(q - d, d);
    }
  }

  lemma {:induction false} QuotUnique(d: nat, k: nat, r: nat)
    requires r < d
    ensures Quot(Times(d, k) + r, d) == k && Rem(Times(d, k) + r, d) == r
    decreases k
  {
    if k > 0 {
      QuotUnique(d, k - 1, r);
      assert Times(d, k) + r - d == Times(d, k - 1) + r;
    }
  }

  /** The quotient and remainder are those of integer division. */
  lemma QuotIsDiv(q: nat, d: nat)
    requires d > 0
    ensures Quot(q, d) == q / d && Rem(q, d) == q % d
  {
    QuotRem(q, d);
    TimesIsProduct(d, Quot(q, d));
    DivUnique(q, d, Quot(q, d), Rem(q, d));
  }

  lemma DivUnique(q: nat, d: nat, k: nat, r: nat)
    requires d > 0 && r < d && q == d * k + r
    ensures q / d == k && q % d == r
  {
    assert q == d * (q / d) + q % d;
    var e := k - q / d;
    assert d * e == q % d - r by { assert d * e == d * k - d * (q / d); }
    if e >= 1 {
      MulMonotone(d, 1, e);
    } else if e <= -1 {
      MulMonotone(d, e, -1);
    }
  }

  lemma MulMonotone(m: nat, a: int, b: int)
    requires a <= b
    ensures m * a <= m * b
  {
  }

  datatype FatKind = Fat12 | Fat16 | Fat32 {
    /** Largest value an entry can hold; also what the end-of-chain mark reads back as. */
    function Mask(): nat {
      match this
      case Fat12 => 0xFFF
      case Fat16 => 0xFFFF
      case Fat32 => 0x0FFF_FFFF
    }

    /** A value cut to the width of an entry. */
    function Fit(v: nat): nat {
      match this
      case Fat12 => v % 0x1000
      case Fat16 => v % 0x1_0000
      case Fat32 => v % 0x1000_0000
    }

    /** Largest cluster count the driver accepts for the kind. */
    function MaxClusters(): nat {
      match this
      case Fat12 => 0xFF5
      case Fat16 => 0xFFF5
      case Fat32 => 0x0FFF_FFF5
    }

    /** Number of FAT bytes that hold entries 0 .. n-1. */
    function TableBytes(n: nat): nat {
      match this
      case Fat12 => n * 3 / 2 + n % 2
      case Fat16 => n * 2
      case Fat32 => n * 4
    }
  }

  datatype Geometry = Geometry(
    kind: FatKind,
    nFats: nat,     // number of FAT copies
    csize: nat,     // sectors per cluster
    nFatent: nat,   // number of FAT entries: clusters + 2
    fsize: nat,     // sectors per FAT copy
    fatbase: nat,   // first sector of the first FAT copy
    database: nat,  // first sector of cluster 2
    nSectors: nat)  // sectors on the device
  {
    /** What mounting establishes; FatMount proves it of every boot sector it accepts. */
    ghost predicate Sane() {
      && (nFats == 1 || nFats == 2)
      && 1 <= csize <= 128
      && 3 <= nFatent <= kind.MaxClusters() + 2
      && 1 <= fatbase
      && fatbase + (if nFats == 2 then 2 * fsize else fsize) <= database <= nSectors <= 0xFFFF_FFFF
      && kind.TableBytes(nFatent) <= fsize * 512
    }

    /** The clusters fit on the device. */
    ghost predicate DataFits()
      requires nFatent >= 2
    {
      database + Times(csize, nFatent - 2) <= nSectors
    }

    /** Sector of the first FAT copy. */
    ghost predicate InFat(s: int) {
      fatbase <= s < fatbase + fsize
    }

    /** Sector of the second FAT copy, if there is one. */
    ghost predicate InMirror(s: int) {
      nFats == 2 && fatbase + fsize <= s < fatbase + 2 * fsize
    }

    predicate IsCluster(c: int) {
      2 <= c < nFatent
    }

    /** First sector of a cluster. */
    function First(c: nat): nat
      requires c >= 2
    {
      database + Times(csize, c - 2)
    }

    /** First sector of a cluster, or 0 for a number that is no cluster. */
    function Clst2Sect(c: nat): nat {
      if IsCluster(c) then First(c) else 0
    }

    /** Bytes per cluster. */
    function ClusterBytes(): nat {
      csize * 512
    }
  }

  /** Clusters of csize sectors follow each other from the start of the data region on, which is where cluster 2 lies;
      a number that is no cluster has no sector. */
  lemma ClusterSector(g: Geometry, c: nat)
    ensures g.Clst2Sect(c) == if 2 <= c < g.nFatent then g.database + g.csize * (c - 2) else 0
  {
    if g.IsCluster(c) {
      TimesIsProduct(g.csize, c - 2);
    }
  }

  /** The numbers of the clusters end right before the mark of a bad cluster, which is eight below the largest value an
      entry can hold; and that is what is left of any larger value. */
  lemma ClusterNumbers(g: Geometry, c: nat)
    requires g.Sane() && g.IsCluster(c)
    ensures g.kind.MaxClusters() + 2 == g.kind.Mask() - 8 && c < g.kind.Mask() - 8 && g.kind.Fit(c) == c
    ensures g.kind.Fit(0x0FFF_FFFF) == g.kind.Mask()
  {
  }

  /** A table of n entries takes as many bytes as its bits need. */
  lemma TableSize(k: FatKind, n: nat)
    ensures var bits := if k.Fat12? then 12 else if k.Fat16? then 16 else 32;
            n * bits <= k.TableBytes(n) * 8 < n * bits + 8
  {
  }

  /** Every sector of a cluster lies in the data region, past both FAT copies. */
  lemma ClusterInData(g: Geometry, c: nat, k: nat)
    requires g.Sane() && g.DataFits() && g.IsCluster(c) && k < g.csize
    ensures g.database <= g.First(c) + k < g.nSectors
    ensures !g.InFat(g.First(c) + k) && !g.InMirror(g.First(c) + k)
  {
    TimesMonotone(g.csize, c - 1, g.nFatent - 2);
  }

  /** Different clusters share no sector. */
  lemma ClustersDisjoint(g: Geometry, c: nat, k: nat, d: nat, l: nat)
    requires c >= 2 && d >= 2 && k < g.csize && l < g.csize
    requires g.First(c) + k == g.First(d) + l
    ensures c == d && k == l
  {
    if c < d {
      TimesMonotone(g.csize, c - 1, d - 2);
    } else if d < c {
      TimesMonotone(g.csize, d - 1, c - 2);
    }
  }

  /** log is the disk as seen through the write-back window: a dirty window shadows its sector. The
      second FAT copy, which is only ever written behind the first, is no part of that view. */
  ghost predicate Shows(g: Geometry, disk: seq<Sector>, dirty: bool, at: nat, content: seq<byte>, log: seq<Sector>) {
    && |disk| == |log|
    && forall s :: 0 <= s < |log| && !g.InMirror(s) ==> log[s] == if dirty && s == at then content else disk[s]
  }

  /** A window that becomes dirty with new content changes one sector of the logical disk. */
  lemma ShowsStored(g: Geometry, disk: seq<Sector>, dirty: bool, at: nat, content: Sector, content': Sector, log: seq<Sector>)
    requires Shows(g, disk, dirty, at, content, log) && at < |log|
    ensures Shows(g, disk, true, at, content', log[at := content'])
  {
  }

  /** Two logical disks agree outside the first FAT copy. */
  ghost predicate SameOffFat(g: Geometry, a: seq<Sector>, b: seq<Sector>) {
    |a| == |b| && forall s :: 0 <= s < |a| && !g.InFat(s) ==> a[s] == b[s]
  }

  /** The second FAT copy equals the first, but for the sector a dirty window still holds back. */
  ghost predicate MirrorOf(g: Geometry, disk: seq<Sector>, dirty: bool, at: nat)
    requires g.Sane() && |disk| == g.nSectors
  {
    && (dirty ==> !g.InMirror(at))
    && (g.nFats == 2 ==> forall s :: g.InFat(s) && !(dirty && s == at) ==> disk[s + g.fsize] == disk[s])
  }

  /** Copies that differ at most in one FAT sector become equal when that sector is copied to the second. */
  lemma MirrorAfterReflect(g: Geometry, d: seq<Sector>, at: nat)
    requires g.Sane() && |d| == g.nSectors && at < g.nSectors && MirrorOf(g, d, true, at)
    ensures if g.nFats == 2 && g.InFat(at) then MirrorOf(g, Replace(d, at + g.fsize, [d[at]]), false, at)
            else MirrorOf(g, d, false, at)
  {
    if g.nFats == 2 && g.InFat(at) {
      var d' := Replace(d, at + g.fsize, [d[at]]);
      forall s | g.InFat(s) ensures d'[s + g.fsize] == d'[s] {
        if s != at {
          assert d[s + g.fsize] == d[s];
        }
      }
    }
  }

  /** Writing the sector of a dirty window keeps the copies equal elsewhere. */
  lemma MirrorAfterWriteBack(g: Geometry, d: seq<Sector>, at: nat, content: Sector)
    requires g.Sane() && |d| == g.nSectors && at < g.nSectors && MirrorOf(g, d, true, at)
    ensures MirrorOf(g, Replace(d, at, [content]), true, at)
  {
    var d' := Replace(d, at, [content]);
    if g.nFats == 2 {
      forall s | g.InFat(s) && s != at ensures d'[s + g.fsize] == d'[s] {
        assert d[s + g.fsize] == d[s];
      }
    }
  }

  /** The bytes of n consecutive sectors. */
  function Flatten(disk: seq<Sector>, at: nat, n: nat): (t: seq<byte>)
    requires at + n <= |disk|
    ensures |t| == n * 512
  {
    if n == 0 then [] else Flatten(disk, at, n - 1) + disk[at + n - 1]
  }

  lemma {:induction false} FlattenAt(disk: seq<Sector>, at: nat, n: nat, o: nat)
    requires at + n <= |disk| && o < n * 512
    ensures Flatten(disk, at, n)[o] == disk[at + o / 512][o % 512]
  {
    if o < (n - 1) * 512 {
      FlattenAt(disk, at, n - 1, o);
    }
  }

  // ---- little-endian fields of a sector ----

  /** The number in the n bytes from position i on, the lowest byte first. */
  function Number(s: seq<byte>, i: nat, n: nat): nat
    requires i + n <= |s|
    decreases n
  {
    if n == 0 then 0 else s[i] + 256 * Number(s, i + 1, n - 1)
  }

  /** So the fields are. */
  lemma FieldNumber(s: seq<byte>, i: nat)
    ensures i + 2 <= |s| ==> LdWord(s, i) == Number(s, i, 2)
    ensures i + 4 <= |s| ==> LdDword(s, i) == Number(s, i, 4)
  {
    if i + 2 <= |s| {
      assert Number(s, i + 1, 1) == s[i + 1] + 256 * Number(s, i + 2, 0);
    }
    if i + 4 <= |s| {
      assert Number(s, i + 3, 1) == s[i + 3] + 256 * Number(s, i + 4, 0);
      assert Number(s, i + 2, 2) == s[i + 2] + 256 * Number(s, i + 3, 1);
      assert Number(s, i + 1, 3) == s[i + 1] + 256 * Number(s, i + 2, 2);
    }
  }

  function LdWord(s: seq<byte>, i: nat): (w: nat)
    requires i + 2 <= |s|
    ensures w < 0x1_0000
  {
    s[i] as int + 256 * (s[i + 1] as int)
  }

  function LdDword(s: seq<byte>, i: nat): (w: nat)
    requires i + 4 <= |s|
    ensures w < 0x1_0000_0000
  {
    s[i] as int + 256 * (s[i + 1] as int) + 0x1_0000 * (s[i + 2] as int) + 0x100_0000 * (s[i + 3] as int)
  }

  /** The two bytes of a 16-bit field. */
  function WordBytes(v: nat): seq<byte> {
    [v % 256, v / 256 % 256]
  }

  /** The four bytes of a 32-bit field. */
  function DwordBytes(v: nat): seq<byte> {
    WordBytes(v) + WordBytes(v / 0x1_0000)
  }

  function StWord(s: seq<byte>, i: nat, v: nat): (t: seq<byte>)
    requires i + 2 <= |s|
    ensures |t| == |s|
  {
    Replace(s, i, WordBytes(v))
  }

  function StDword(s: seq<byte>, i: nat, v: nat): (t: seq<byte>)
    requires i + 4 <= |s|
    ensures |t| == |s|
  {
    Replace(s, i, DwordBytes(v))
  }
}
