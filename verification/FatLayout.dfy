/**
 Where the bytes of a file live: file sector q is sector q mod csize of the (q div csize)-th
 cluster of the file's chain. The file is the concatenation of those sectors, with one of
 them possibly shadowed by the file's private sector buffer.
 */
module FatLayout {
  import opened ByteSeqs
  import opened FatDisk

  /** All elements are cluster numbers. */
  ghost predicate Clusters(g: Geometry, ch: seq<nat>) {
    forall i :: 0 <= i < |ch| ==> g.IsCluster(ch[i])
  }

  /** Disk sector of file sector q. */
  function At(g: Geometry, ch: seq<nat>, q: nat): nat
    requires g.csize > 0 && Quot(q, g.csize) < |ch| && ch[Quot(q, g.csize)] >= 2
  {
    g.First(ch[Quot(q, g.csize)]) + Rem(q, g.csize)
  }

  /** File sectors of a chain are numbered below csize times its length. */
  lemma SectorInChain(g: Geometry, ch: seq<nat>, q: nat)
    requires g.csize > 0
    ensures q < Times(g.csize, |ch|) <==> Quot(q, g.csize) < |ch|
  {
    QuotRem(q, g.csize);
    var k := Quot(q, g.csize);
    if k < |ch| {
      TimesMonotone(g.csize, k, |ch|);
    } else {
      TimesMonotone(g.csize, |ch|, k);
    }
  }

  lemma AtInData(g: Geometry, ch: seq<nat>, q: nat)
    requires g.Sane() && g.DataFits() && Clusters(g, ch) && q < Times(g.csize, |ch|)
    ensures Quot(q, g.csize) < |ch| && g.IsCluster(ch[Quot(q, g.csize)])
    ensures g.database <= At(g, ch, q) < g.nSectors
    ensures !g.InFat(At(g, ch, q)) && !g.InMirror(At(g, ch, q))
  {
    SectorInChain(g, ch, q);
    ClusterInData(g, ch[Quot(q, g.csize)], Rem(q, g.csize));
  }

  /** Different file sectors are different disk sectors. */
  lemma AtInjective(g: Geometry, ch: seq<nat>, p: nat, q: nat)
    requires Distinct(ch)
    requires g.Sane() && g.DataFits() && Clusters(g, ch) && p < Times(g.csize, |ch|) && q < Times(g.csize, |ch|)
    requires Quot(p, g.csize) < |ch| && Quot(q, g.csize) < |ch|
    requires At(g, ch, p) == At(g, ch, q)
    ensures p == q
  {
    AtInData(g, ch, p);
    AtInData(g, ch, q);
    ClustersDisjoint(g, ch[Quot(p, g.csize)], Rem(p, g.csize), ch[Quot(q, g.csize)], Rem(q, g.csize));
    QuotRem(p, g.csize);
    QuotRem(q, g.csize);
  }

  /** File sectors inside one cluster are consecutive on disk. */
  lemma AtConsecutive(g: Geometry, ch: seq<nat>, q: nat, j: nat)
    requires g.csize > 0 && Quot(q, g.csize) < |ch| && ch[Quot(q, g.csize)] >= 2
    requires Rem(q, g.csize) + j < g.csize
    ensures Quot(q + j, g.csize) == Quot(q, g.csize) && Rem(q + j, g.csize) == Rem(q, g.csize) + j
    ensures At(g, ch, q + j) == At(g, ch, q) + j
  {
    QuotRem(q, g.csize);
    QuotUnique(g.csize, Quot(q, g.csize), Rem(q, g.csize) + j);
  }

  // ---- the file's sectors ----

  ghost predicate HoldsAt(g: Geometry, log: seq<Sector>, ch: seq<nat>, secs: seq<Sector>, q: nat)
    requires q < |secs| && g.csize > 0
  {
    && Quot(q, g.csize) < |ch|
    && g.IsCluster(ch[Quot(q, g.csize)])
    && At(g, ch, q) < |log|
    && secs[q] == log[At(g, ch, q)]
  }

  /** secs are the sectors of the file with chain ch on disk log. */
  ghost predicate Holds(g: Geometry, log: seq<Sector>, ch: seq<nat>, secs: seq<Sector>)
    requires g.csize > 0
  {
    && |secs| == Times(g.csize, |ch|)
    && forall q: nat {:trigger HoldsAt(g, log, ch, secs, q)} :: q < |secs| ==> HoldsAt(g, log, ch, secs, q)
  }

  /** The sectors of a chain, as found on disk. */
  ghost function SectorsOf(g: Geometry, log: seq<Sector>, ch: seq<nat>): (secs: seq<Sector>)
    requires g.Sane() && g.DataFits() && |log| == g.nSectors && Clusters(g, ch)
    ensures Holds(g, log, ch, secs)
  {
    var secs: seq<Sector> := seq(Times(g.csize, |ch|), q requires 0 <= q < Times(g.csize, |ch|) =>
      AtInData(g, ch, q); log[At(g, ch, q)]);
    assert Holds(g, log, ch, secs) by {
      forall q: nat | q < |secs| ensures HoldsAt(g, log, ch, secs, q) {
        AtInData(g, ch, q);
      }
    }
    secs
  }

  /** A file sector whose disk sector lies in a run inside one cluster belongs to that run. */
  lemma BackFromRun(g: Geometry, ch: seq<nat>, q: nat, n: nat, p: nat)
    requires Distinct(ch)
    requires g.csize > 0 && Clusters(g, ch)
    requires q < Times(g.csize, |ch|) && Rem(q, g.csize) + n <= g.csize && p < Times(g.csize, |ch|)
    requires Quot(q, g.csize) < |ch| && Quot(p, g.csize) < |ch|
    requires At(g, ch, q) <= At(g, ch, p) < At(g, ch, q) + n
    ensures q <= p < q + n
  {
    var c, d := ch[Quot(q, g.csize)], ch[Quot(p, g.csize)];
    ClustersDisjoint(g, c, At(g, ch, p) - g.First(c), d, Rem(p, g.csize));
    QuotRem(p, g.csize);
    QuotRem(q, g.csize);
  }

  /** The disk sectors of a run of file sectors inside one cluster are a run. */
  lemma InRun(g: Geometry, ch: seq<nat>, q: nat, n: nat, p: nat)
    requires Distinct(ch)
    requires g.csize > 0 && Clusters(g, ch)
    requires q < Times(g.csize, |ch|) && Rem(q, g.csize) + n <= g.csize && p < Times(g.csize, |ch|)
    requires Quot(q, g.csize) < |ch| && Quot(p, g.csize) < |ch|
    ensures q <= p < q + n <==> At(g, ch, q) <= At(g, ch, p) < At(g, ch, q) + n
    ensures q <= p < q + n ==> At(g, ch, p) == At(g, ch, q) + (p - q)
  {
    if At(g, ch, q) <= At(g, ch, p) < At(g, ch, q) + n {
      BackFromRun(g, ch, q, n, p);
    }
    if q <= p < q + n {
      AtConsecutive(g, ch, q, p - q);
    }
  }

  /** A run of sectors inside one cluster of the chain lies inside the file and on the disk. */
  lemma RunFits(g: Geometry, ch: seq<nat>, q: nat, n: nat)
    requires g.Sane() && g.DataFits() && Clusters(g, ch)
    requires q < Times(g.csize, |ch|) && Rem(q, g.csize) + n <= g.csize
    ensures Quot(q, g.csize) < |ch| && g.IsCluster(ch[Quot(q, g.csize)])
    ensures q + n <= Times(g.csize, |ch|)
    ensures g.database <= At(g, ch, q) && At(g, ch, q) + n <= g.nSectors
  {
    AtInData(g, ch, q);
    if n > 0 {
      AtConsecutive(g, ch, q, n - 1);
      SectorInChain(g, ch, q + n - 1);
      AtInData(g, ch, q + n - 1);
    }
  }

  /** Overwriting consecutive sectors of one cluster overwrites the same file sectors and nothing else. */
  lemma HoldsWritten(g: Geometry, log: seq<Sector>, ch: seq<nat>, secs: seq<Sector>, q: nat, data: seq<Sector>)
    requires Distinct(ch)
    requires g.Sane() && g.DataFits() && |log| == g.nSectors && Clusters(g, ch) && Holds(g, log, ch, secs)
    requires q < |secs| && Rem(q, g.csize) + |data| <= g.csize
    ensures Quot(q, g.csize) < |ch| && g.IsCluster(ch[Quot(q, g.csize)])
    ensures q + |data| <= |secs| && At(g, ch, q) + |data| <= g.nSectors
    ensures Holds(g, Replace(log, At(g, ch, q), data), ch, Replace(secs, q, data))
  {
    RunFits(g, ch, q, |data|);
    var log', secs' := Replace(log, At(g, ch, q), data), Replace(secs, q, data);
    forall p: nat | p < |secs'| ensures HoldsAt(g, log', ch, secs', p) {
      assert HoldsAt(g, log, ch, secs, p);
      InRun(g, ch, q, |data|, p);
    }
  }

  /** Appending a cluster appends its sectors. */
  lemma HoldsStretched(g: Geometry, log: seq<Sector>, ch: seq<nat>, secs: seq<Sector>, c: nat)
    requires g.Sane() && g.DataFits() && |log| == g.nSectors && Clusters(g, ch) && Holds(g, log, ch, secs)
    requires g.IsCluster(c) && c !in ch
    ensures g.First(c) + g.csize <= g.nSectors && Clusters(g, ch + [c])
    ensures Holds(g, log, ch + [c], secs + log[g.First(c)..g.First(c) + g.csize])
  {
    ClusterInData(g, c, g.csize - 1);
    var ch', secs' := ch + [c], secs + log[g.First(c)..g.First(c) + g.csize];
    assert Times(g.csize, |ch'|) == Times(g.csize, |ch|) + g.csize;
    forall p: nat | p < |secs'| ensures HoldsAt(g, log, ch', secs', p) {
      if p < |secs| {
        assert HoldsAt(g, log, ch, secs, p);
      } else {
        QuotUnique(g.csize, |ch|, p - |secs|);
      }
    }
  }

  /** Cutting the chain cuts the sectors. */
  lemma HoldsCut(g: Geometry, log: seq<Sector>, ch: seq<nat>, secs: seq<Sector>, n: nat)
    requires g.csize > 0 && Holds(g, log, ch, secs) && n <= |ch|
    ensures Times(g.csize, n) <= |secs| && Holds(g, log, ch[..n], secs[..Times(g.csize, n)])
  {
    TimesMonotone(g.csize, n, |ch|);
    var ch', secs' := ch[..n], secs[..Times(g.csize, n)];
    forall p: nat | p < |secs'| ensures HoldsAt(g, log, ch', secs', p) {
      assert HoldsAt(g, log, ch, secs, p);
      SectorInChain(g, ch', p);
    }
  }

  /** The sectors of a file do not depend on disk sectors outside the data region. */
  lemma HoldsSame(g: Geometry, log: seq<Sector>, log': seq<Sector>, ch: seq<nat>, secs: seq<Sector>)
    requires g.Sane() && |log'| == |log| && Holds(g, log, ch, secs)
    requires forall s :: g.database <= s < |log| ==> log'[s] == log[s]
    ensures Holds(g, log', ch, secs)
  {
    forall p: nat | p < |secs| ensures HoldsAt(g, log', ch, secs, p) {
      assert HoldsAt(g, log, ch, secs, p);
    }
  }

  /** Chain and disk fix the sectors. */
  lemma HoldsUnique(g: Geometry, log: seq<Sector>, ch: seq<nat>, a: seq<Sector>, b: seq<Sector>)
    requires g.csize > 0 && Holds(g, log, ch, a) && Holds(g, log, ch, b)
    ensures a == b
  {
    forall q: nat | q < |a| ensures a[q] == b[q] {
      assert HoldsAt(g, log, ch, a, q) && HoldsAt(g, log, ch, b, q);
    }
  }

  // ---- positions in bytes ----

  /** The cluster that holds byte i, counted in bytes or in sectors, is the same. */
  lemma ClusterOfByte(g: Geometry, i: nat)
    requires g.csize > 0
    ensures g.ClusterBytes() > 0
    ensures Quot(i, g.ClusterBytes()) == Quot(i / 512, g.csize)
    ensures Rem(i, g.ClusterBytes()) == Rem(i / 512, g.csize) * 512 + i % 512
  {
    var q := i / 512;
    QuotRem(q, g.csize);
    var k, r := Quot(q, g.csize), Rem(q, g.csize);
    TimesScaled(g.csize, k);
    QuotUnique(g.ClusterBytes(), k, r * 512 + i % 512);
  }

  lemma {:induction false} TimesScaled(m: nat, k: nat)
    ensures Times(m * 512, k) == Times(m, k) * 512
    decreases k
  {
    if k > 0 {
      TimesScaled(m, k - 1);
    }
  }

  /** A position inside the k-th cluster, given by its distance from the start of that cluster. */
  lemma PositionInCluster(g: Geometry, k: nat, rest: nat)
    requires g.csize > 0 && 0 < rest <= g.ClusterBytes()
    ensures var p := Times(g.ClusterBytes(), k) + rest;
            && Quot((p - 1) / 512, g.csize) == k
            && p % 512 == rest % 512
            && (rest % 512 != 0 ==> Quot(p / 512, g.csize) == k && Rem(p / 512, g.csize) == rest / 512)
  {
    var p := Times(g.ClusterBytes(), k) + rest;
    TimesScaled(g.csize, k);
    QuotUnique(g.ClusterBytes(), k, rest - 1);
    ClusterOfByte(g, p - 1);
    if rest % 512 != 0 {
      QuotUnique(g.csize, k, rest / 512);
      assert p / 512 == Times(g.csize, k) + rest / 512;
    }
  }

  /** The start of the cluster of byte i, for a later byte j in the same or a later cluster. */
  lemma ClusterStart(g: Geometry, i: nat, j: nat)
    requires g.csize > 0
    ensures g.ClusterBytes() > 0
    ensures var bcs := g.ClusterBytes();
            && Quot(i / 512, g.csize) == Quot(i, bcs)
            && Rem(i, bcs) <= i && i - Rem(i, bcs) == Times(bcs, Quot(i, bcs))
            && (Quot(j, bcs) >= Quot(i, bcs) ==> Times(bcs, Quot(i, bcs)) <= j)
  {
    var bcs := g.ClusterBytes();
    ClusterOfByte(g, i);
    QuotRem(i, bcs);
    QuotRem(j, bcs);
    if Quot(j, bcs) >= Quot(i, bcs) {
      TimesMonotone(bcs, Quot(i, bcs), Quot(j, bcs));
    }
  }

  /** A position inside the k-th cluster of a chain is inside the chain. */
  lemma PositionInChain(g: Geometry, k: nat, n: nat, rest: nat)
    requires k < n && rest <= g.ClusterBytes()
    ensures Times(g.ClusterBytes(), k) + rest <= Times(g.csize, n) * 512
  {
    TimesScaled(g.csize, n);
    TimesMonotone(g.ClusterBytes(), k, n);
  }

  /** Number of clusters that hold the first n bytes of a file. */
  function ClustersFor(g: Geometry, n: nat): nat
    requires g.csize > 0
  {
    if n == 0 then 0 else Quot((n - 1) / 512, g.csize) + 1
  }

  /** A position is at most the end of the cluster of the byte before it. */
  lemma PointerInClusters(g: Geometry, p: nat)
    requires g.csize > 0 && p > 0
    ensures p <= Times(g.csize, Quot((p - 1) / 512, g.csize) + 1) * 512
  {
    QuotRem((p - 1) / 512, g.csize);
  }

  /** Clusters before a position inside the file are clusters of its chain. */
  lemma NextClusterExists(g: Geometry, k: nat, n: nat, p: nat)
    requires g.csize > 0 && Times(g.ClusterBytes(), k) + g.ClusterBytes() < p <= Times(g.csize, n) * 512
    ensures k + 1 < n
  {
    TimesScaled(g.csize, n);
    if n <= k + 1 {
      TimesMonotone(g.ClusterBytes(), n, k + 1);
    }
  }

  /** At a cluster boundary, the byte before the position lies in the previous cluster. */
  lemma BoundaryCluster(g: Geometry, p: nat)
    requires g.csize > 0 && p > 0 && p % 512 == 0 && Rem(p / 512, g.csize) == 0
    ensures Quot(p / 512, g.csize) > 0
    ensures Quot((p - 1) / 512, g.csize) == Quot(p / 512, g.csize) - 1
  {
    var q := p / 512;
    assert (p - 1) / 512 == q - 1;
    QuotRem(q, g.csize);
    var k := Quot(q, g.csize);
    assert Times(g.csize, k) == Times(g.csize, k - 1) + g.csize;
    QuotUnique(g.csize, k - 1, g.csize - 1);
  }

  /** A cluster boundary is a whole number of clusters away from the start. */
  lemma BoundaryPosition(g: Geometry, p: nat)
    requires g.csize > 0 && p % 512 == 0 && Rem(p / 512, g.csize) == 0
    ensures p == Times(g.ClusterBytes(), Quot(p / 512, g.csize))
  {
    QuotRem(p / 512, g.csize);
    TimesScaled(g.csize, Quot(p / 512, g.csize));
  }

  /** Away from a cluster boundary, the byte before the position lies in the same cluster. */
  lemma InnerCluster(g: Geometry, p: nat)
    requires g.csize > 0 && p > 0 && (p % 512 != 0 || Rem(p / 512, g.csize) != 0)
    ensures Quot((p - 1) / 512, g.csize) == Quot(p / 512, g.csize)
  {
    if p % 512 != 0 {
      assert (p - 1) / 512 == p / 512;
    } else {
      var q := p / 512;
      assert (p - 1) / 512 == q - 1;
      QuotRem(q, g.csize);
      QuotUnique(g.csize, Quot(q, g.csize), Rem(q, g.csize) - 1);
    }
  }

  /** Advancing by at most the rest of the sector, or by whole sectors up to the end of the cluster, the byte
      before the new position lies in the same cluster. */
  lemma AdvancedInSector(g: Geometry, p: nat, n: nat)
    requires g.csize > 0 && 0 < n && p % 512 + n <= 512
    ensures (p + n - 1) / 512 == p / 512
    ensures (p + n) % 512 != 0 ==> (p + n) / 512 == p / 512
  {
  }

  lemma AdvancedInCluster(g: Geometry, p: nat, cc: nat)
    requires g.csize > 0 && cc > 0 && p % 512 == 0 && Rem(p / 512, g.csize) + cc <= g.csize
    ensures Quot((p + cc * 512 - 1) / 512, g.csize) == Quot(p / 512, g.csize)
    ensures (p + cc * 512) % 512 == 0
  {
    var q, j := p / 512, cc - 1;
    assert p == q * 512;
    assert (p + cc * 512 - 1) / 512 == q + j;
    QuotRem(q, g.csize);
    QuotUnique(g.csize, Quot(q, g.csize), Rem(q, g.csize) + j);
  }

  // ---- bytes ----

  /** The first size bytes of a sequence of sectors. */
  function Bytes(secs: seq<Sector>, size: nat): (b: seq<byte>)
    requires size <= |secs| * 512
    ensures |b| == size
  {
    Flatten(secs, 0, |secs|)[..size]
  }

  lemma BytesAt(secs: seq<Sector>, size: nat, i: nat)
    requires i < size <= |secs| * 512
    ensures Bytes(secs, size)[i] == secs[i / 512][i % 512]
  {
    FlattenAt(secs, 0, |secs|, i);
  }

  /** Where byte i of a file lies. */
  lemma ByteAtPlace(g: Geometry, log: seq<Sector>, ch: seq<nat>, size: nat, i: nat)
    requires g.Sane() && g.DataFits() && |log| == g.nSectors && Clusters(g, ch)
    requires i < size <= Times(g.csize, |ch|) * 512
    ensures var k := Quot(i / 512, g.csize);
            && k < |ch| && g.IsCluster(ch[k])
            && var s := g.First(ch[k]) + Rem(i / 512, g.csize);
               s < |log| && Bytes(SectorsOf(g, log, ch), size)[i] == log[s][i % 512]
  {
    var secs, q := SectorsOf(g, log, ch), i / 512;
    assert HoldsAt(g, log, ch, secs, q);
    BytesAt(secs, size, i);
  }

  lemma RawPlace(g: Geometry, c: nat, q: nat)
    requires g.csize > 0 && c >= 2
    ensures Quot(q, g.csize) == q / g.csize
    ensures g.First(c) + Rem(q, g.csize) == g.database + g.csize * (c - 2) + q % g.csize
  {
    QuotIsDiv(q, g.csize);
    TimesIsProduct(g.csize, c - 2);
  }

  /** Sectors that differ from secs by data written at p, below the new size, make spliced content. */
  lemma SplicedBytes(secs: seq<Sector>, secs': seq<Sector>, size: nat, p: nat, data: seq<byte>)
    requires |secs'| == |secs| && p <= size <= |secs| * 512 && p + |data| <= |secs| * 512
    requires forall i: nat :: i < p + |data| || i < size ==>
               secs'[i / 512][i % 512] == if p <= i < p + |data| then data[i - p] else secs[i / 512][i % 512]
    ensures var size' := if p + |data| > size then p + |data| else size;
            Bytes(secs', size') == Spliced(Bytes(secs, size), p, data)
  {
    var size' := if p + |data| > size then p + |data| else size;
    forall i: nat | i < size' ensures Bytes(secs', size')[i] == Spliced(Bytes(secs, size), p, data)[i] {
      BytesAt(secs', size', i);
      if i < size {
        BytesAt(secs, size, i);
      }
    }
  }

  /** Sectors appended behind the size do not change the bytes below it. */
  lemma BytesOfMore(secs: seq<Sector>, more: seq<Sector>, size: nat)
    requires size <= |secs| * 512
    ensures Bytes(secs + more, size) == Bytes(secs, size)
  {
    forall i: nat | i < size ensures Bytes(secs + more, size)[i] == Bytes(secs, size)[i] {
      BytesAt(secs + more, size, i);
      BytesAt(secs, size, i);
    }
  }

  /** A larger size only adds bytes. */
  lemma BytesGrow(secs: seq<Sector>, size: nat, size': nat)
    requires size <= size' <= |secs| * 512
    ensures Bytes(secs, size) <= Bytes(secs, size')
  {
  }

  // ---- reading sectors ----

  /** The bytes of a run of sectors are a slice of the bytes of all. */
  lemma {:induction false} FlattenSlice(secs: seq<Sector>, q: nat, n: nat)
    requires q + n <= |secs|
    ensures Flatten(secs[q..q + n], 0, n) == Flatten(secs, 0, |secs|)[q * 512..(q + n) * 512]
  {
    var part, all := Flatten(secs[q..q + n], 0, n), Flatten(secs, 0, |secs|);
    forall i: nat | i < n * 512 ensures part[i] == all[q * 512..(q + n) * 512][i] {
      FlattenAt(secs[q..q + n], 0, n, i);
      FlattenAt(secs, 0, |secs|, q * 512 + i);
      assert (q * 512 + i) / 512 == q + i / 512 && (q * 512 + i) % 512 == i % 512;
    }
  }

  lemma BytesOfRun(secs: seq<Sector>, q: nat, n: nat, size: nat)
    requires q + n <= |secs| && (q + n) * 512 <= size <= |secs| * 512
    ensures Flatten(secs[q..q + n], 0, n) == Bytes(secs, size)[q * 512..(q + n) * 512]
  {
    FlattenSlice(secs, q, n);
    var all := Flatten(secs, 0, |secs|);
    assert all[..size][q * 512..(q + n) * 512] == all[q * 512..(q + n) * 512];
  }

  /** A run of file sectors inside one cluster, as found on disk. */
  lemma HoldsRun(g: Geometry, log: seq<Sector>, ch: seq<nat>, secs: seq<Sector>, q: nat, n: nat)
    requires g.Sane() && g.DataFits() && |log| == g.nSectors && Clusters(g, ch) && Holds(g, log, ch, secs)
    requires q < |secs| && Rem(q, g.csize) + n <= g.csize
    ensures Quot(q, g.csize) < |ch| && g.IsCluster(ch[Quot(q, g.csize)])
    ensures q + n <= |secs| && At(g, ch, q) + n <= g.nSectors
    ensures log[At(g, ch, q)..At(g, ch, q) + n] == secs[q..q + n]
  {
    RunFits(g, ch, q, n);
    var at := At(g, ch, q);
    var onDisk, inFile := log[at..at + n], secs[q..q + n];
    forall j: nat | j < n ensures onDisk[j] == inFile[j] {
      assert HoldsAt(g, log, ch, secs, q + j);
      AtConsecutive(g, ch, q, j);
    }
  }

  /** The bytes of whole sectors. */
  function Sectors(b: seq<byte>): (secs: seq<Sector>)
    requires |b| % 512 == 0
    ensures |secs| == |b| / 512
  {
    seq(|b| / 512, j requires 0 <= j < |b| / 512 => b[j * 512..j * 512 + 512])
  }

  /** Content after whole sectors have been written at a sector boundary. */
  lemma SplicedRun(secs: seq<Sector>, size: nat, q: nat, data: seq<byte>)
    requires |data| % 512 == 0 && q * 512 <= size <= |secs| * 512 && q + |data| / 512 <= |secs|
    ensures var secs' := Replace(secs, q, Sectors(data));
            var size' := if q * 512 + |data| > size then q * 512 + |data| else size;
            Bytes(secs', size') == Spliced(Bytes(secs, size), q * 512, data)
  {
    var secs' := Replace(secs, q, Sectors(data));
    forall i: nat | i < q * 512 + |data| || i < size
      ensures secs'[i / 512][i % 512] ==
              if q * 512 <= i < q * 512 + |data| then data[i - q * 512] else secs[i / 512][i % 512]
    {
      var j := i / 512;
      assert i == j * 512 + i % 512;
      if q <= j < q + |data| / 512 {
        assert secs'[j] == data[(j - q) * 512..(j - q) * 512 + 512];
      }
    }
    SplicedBytes(secs, secs', size, q * 512, data);
  }

  /** Content after part of one sector has been written over base, which agrees with the file below the size. */
  lemma SplicedPart(secs: seq<Sector>, size: nat, p: nat, base: Sector, data: seq<byte>)
    requires p <= size <= |secs| * 512 && p < |secs| * 512 && p % 512 + |data| <= 512
    requires base == secs[p / 512] || (p % 512 == 0 && p == size)
    ensures p + |data| <= |secs| * 512
    ensures var sec: Sector := Replace(base, p % 512, data);
            var size' := if p + |data| > size then p + |data| else size;
            Bytes(secs[p / 512 := sec], size') == Spliced(Bytes(secs, size), p, data)
  {
    var q, o := p / 512, p % 512;
    var sec: Sector := Replace(base, o, data);
    var secs' := secs[q := sec];
    assert p == q * 512 + o;
    forall i: nat | i < p + |data| || i < size
      ensures i / 512 < |secs|
      ensures secs'[i / 512][i % 512] == if p <= i < p + |data| then data[i - p] else secs[i / 512][i % 512]
    {
      assert i == i / 512 * 512 + i % 512;
      if i / 512 == q {
        assert i - p == i % 512 - o;
      }
    }
    SplicedBytes(secs, secs', size, p, data);
  }
}
