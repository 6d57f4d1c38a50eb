/**
 The file allocation table as an array of entries packed into the bytes of the first FAT
 copy: 12-bit entries sharing bytes with their neighbours and straddling sectors, 16-bit
 entries, and 28-bit entries under four reserved bits.
 */
module FatEntries {
  import opened ByteSeqs
  import opened FatDisk

  // ---- entries in a flat table of bytes ----

  /** Byte offset of the first byte of an entry. */
  function EntryOffset(k: FatKind, c: nat): nat {
    match k
    case Fat12 => c + c / 2
    case Fat16 => c * 2
    case Fat32 => c * 4
  }

  /** Number of bytes an entry touches. */
  function EntryWidth(k: FatKind): nat {
    match k
    case Fat12 => 2
    case Fat16 => 2
    case Fat32 => 4
  }

  /** Entries of 2 or 4 bytes follow each other without straddling a sector. */
  lemma NextOffset(k: FatKind, c: nat)
    requires !k.Fat12?
    ensures var o := EntryOffset(k, c);
            var o' := EntryOffset(k, c + 1);
            && o' % 512 == (o % 512 + EntryWidth(k)) % 512
            && o' / 512 == o / 512 + if o' % 512 == 0 then 1 else 0
  {
    if k.Fat16? {
      NextWord(c * 2);
    } else {
      NextDword(c * 4);
    }
  }

  lemma NextWord(o: nat)
    requires o % 2 == 0
    ensures (o + 2) % 512 == (o % 512 + 2) % 512 && (o + 2) / 512 == o / 512 + if (o + 2) % 512 == 0 then 1 else 0
  {
    var q, r := o / 512, o % 512;
    assert o == 512 * q + r && r % 2 == 0;
    if r == 510 {
      assert o + 2 == 512 * (q + 1);
    }
  }

  lemma NextDword(o: nat)
    requires o % 4 == 0
    ensures (o + 4) % 512 == (o % 512 + 4) % 512 && (o + 4) / 512 == o / 512 + if (o + 4) % 512 == 0 then 1 else 0
  {
    var q, r := o / 512, o % 512;
    assert o == 512 * q + r && r % 4 == 0;
    if r == 508 {
      assert o + 4 == 512 * (q + 1);
    }
  }

  /** Every byte of an entry, even of a 12-bit entry that shares them, lies inside the table. */
  lemma EntryInTable(k: FatKind, c: nat, n: nat)
    requires c < n
    ensures EntryOffset(k, c) + EntryWidth(k) <= k.TableBytes(n)
  {
  }

  /** A 12-bit entry from the two bytes it lies in. */
  function Value12(odd: bool, b0: int, b1: int): int {
    if odd then (b0 + 256 * b1) / 16 else (b0 + 256 * b1) % 0x1000
  }

  /** Value of a FAT entry. */
  function Value(k: FatKind, t: seq<byte>, c: nat): (v: nat)
    requires EntryOffset(k, c) + EntryWidth(k) <= |t|
    ensures v <= k.Mask()
  {
    match k
    case Fat12 => Value12(c % 2 == 1, t[c + c / 2], t[c + c / 2 + 1])
    case Fat16 => LdWord(t, c * 2)
    case Fat32 => LdDword(t, c * 4) % 0x1000_0000
  }

  /** The reserved top four bits that share a double word with a FAT32 entry. */
  function ReservedBits(t: seq<byte>, c: nat): nat
    requires c * 4 + 4 <= |t|
  {
    LdDword(t, c * 4) / 0x1000_0000
  }

  /** The entries of a table of bytes are those of fat. */
  ghost predicate Represents(k: FatKind, t: seq<byte>, fat: seq<nat>) {
    && k.TableBytes(|fat|) <= |t|
    && forall c: nat {:trigger EntryOffset(k, c)} :: c < |fat| ==>
         EntryOffset(k, c) + EntryWidth(k) <= |t| && fat[c] == Value(k, t, c)
  }

  /** The first n entries of a table. */
  function Entries(k: FatKind, t: seq<byte>, n: nat): (fat: seq<nat>)
    requires k.TableBytes(n) <= |t|
    ensures |fat| == n && Represents(k, t, fat)
  {
    var fat: seq<nat> := seq(n, c requires 0 <= c < n => EntryInTable(k, c, n); Value(k, t, c));
    EntriesRepresent(k, t, fat);
    fat
  }

  lemma EntriesRepresent(k: FatKind, t: seq<byte>, fat: seq<nat>)
    requires k.TableBytes(|fat|) <= |t|
    requires forall c: nat :: c < |fat| ==> EntryOffset(k, c) + EntryWidth(k) <= |t| ==> fat[c] == Value(k, t, c)
    ensures Represents(k, t, fat)
  {
    forall c: nat | c < |fat| ensures EntryOffset(k, c) + EntryWidth(k) <= |t| {
      EntryInTable(k, c, |fat|);
    }
  }

  /** How entries lie in the bytes of a table: two 12-bit entries, the first one lower, in three bytes; a 16-bit entry in
      two; a 28-bit entry below four reserved bits in four. */
  lemma EntryBytes(k: FatKind, t: seq<byte>, c: nat)
    requires k.TableBytes(c + 1) <= |t|
    ensures EntryOffset(k, c) + EntryWidth(k) <= |t|
    ensures k.Fat12? && c % 2 == 0 ==> Value(k, t, c) == Number(t, 3 * (c / 2), 2) % 0x1000
    ensures k.Fat12? && c % 2 == 1 ==>
              Value(k, t, c - 1) + 0x1000 * Value(k, t, c) == Number(t, 3 * (c / 2), 3)
    ensures k.Fat16? ==> Value(k, t, c) == Number(t, 2 * c, 2)
    ensures k.Fat32? ==> Value(k, t, c) + 0x1000_0000 * ReservedBits(t, c) == Number(t, 4 * c, 4)
  {
    EntryInTable(k, c, c + 1);
    match k
    case Fat12 =>
      var o := 3 * (c / 2);
      FieldNumber(t, o);
      if c % 2 == 1 {
        assert EntryOffset(k, c - 1) == o && EntryOffset(k, c) == o + 1;
        assert Number(t, o + 2, 1) == t[o + 2] + 256 * Number(t, o + 3, 0);
        assert Number(t, o + 1, 2) == t[o + 1] + 256 * Number(t, o + 2, 1);
        PackedTwo(t[o], t[o + 1], t[o + 2]);
      }
    case Fat16 => FieldNumber(t, 2 * c);
    case Fat32 => FieldNumber(t, 4 * c);
  }

  lemma PackedTwo(x: byte, y: byte, z: byte)
    ensures Value12(false, x, y) + 0x1000 * Value12(true, y, z) == x + 256 * (y + 256 * z)
  {
    var q, r := y / 16, y % 16;
    assert y == 16 * q + r;
    Mod4096(q, 256 * r + x);
    Div16(q + 16 * z, r);
  }

  /** First byte of a 12-bit entry after v is stored over byte p: an odd entry owns its high nibble only. */
  function Low12(odd: bool, p: byte, v: nat): byte {
    if odd then p % 16 + v % 16 * 16 else v % 256
  }

  /** Second byte of a 12-bit entry after v is stored over byte p: an even entry owns its low nibble only. */
  function High12(odd: bool, p: byte, v: nat): byte {
    if odd then v / 16 % 256 else p / 16 * 16 + v / 256 % 16
  }

  /** A FAT32 double word w after v is stored under its reserved bits. */
  function UnderReserved(w: nat, v: nat): (r: nat)
    requires w < 0x1_0000_0000
    ensures r < 0x1_0000_0000 && r % 0x1000_0000 == v % 0x1000_0000 && r / 0x1000_0000 == w / 0x1000_0000
  {
    v % 0x1000_0000 + w / 0x1000_0000 * 0x1000_0000
  }

  /** Update of an entry of kind k in the table, as bytes: put_fat's arithmetic on the bytes it finds. */
  function Stored(k: FatKind, t: seq<byte>, c: nat, v: nat): (t': seq<byte>)
    requires EntryOffset(k, c) + EntryWidth(k) <= |t|
    ensures |t'| == |t|
  {
    match k
    case Fat12 =>
      var o := c + c / 2;
      t[o := Low12(c % 2 == 1, t[o], v)][o + 1 := High12(c % 2 == 1, t[o + 1], v)]
    case Fat16 => StWord(t, c * 2, v)
    case Fat32 => StDword(t, c * 4, UnderReserved(LdDword(t, c * 4), v))
  }

  // ---- storing one entry ----

  lemma Div16(q: int, r: int)
    requires 0 <= r < 16
    ensures (16 * q + r) / 16 == q
  {
  }

  lemma Mod4096(q: int, r: int)
    requires 0 <= r < 4096
    ensures (4096 * q + r) % 4096 == r
  {
  }

  /** Both halves of a 12-bit store read back as the stored value. */
  lemma OddReadsBack(v: nat, p: byte, q: byte)
    ensures Value12(true, Low12(true, p, v), High12(true, q, v)) == v % 4096
  {
    var m, d := v / 16, v % 16;
    var k, h := m / 256, m % 256;
    var r: int := p % 16;
    assert Low12(true, p, v) + 256 * (High12(true, q, v) as int) == 16 * (d + 16 * h) + r;
    Div16(d + 16 * h, r);
    assert v == 4096 * k + (16 * h + d);
    Mod4096(k, 16 * h + d);
  }

  lemma EvenReadsBack(v: nat, p: byte, q: byte)
    ensures Value12(false, Low12(false, p, v), High12(false, q, v)) == v % 4096
  {
    var n, l := v / 256, v % 256;
    var k, b := n / 16, n % 16;
    var h: int := q / 16;
    assert Low12(false, p, v) + 256 * (High12(false, q, v) as int) == 4096 * h + (256 * b + l);
    Mod4096(h, 256 * b + l);
    assert v == 4096 * k + (256 * b + l);
    Mod4096(k, 256 * b + l);
  }

  lemma KeepHighNibble(x: nat, y: nat, n: nat)
    requires n < 16
    ensures Value12(true, x / 16 * 16 + n, y) == Value12(true, x, y)
  {
    var q, r := x / 16, x % 16;
    assert x / 16 * 16 + n + 256 * y == 16 * (q + 16 * y) + n;
    Div16(q + 16 * y, n);
    assert x + 256 * y == 16 * (q + 16 * y) + r;
    Div16(q + 16 * y, r);
  }

  lemma KeepLowNibble(x: nat, y: nat, n: nat)
    requires x < 256 && y < 256 && n < 16
    ensures Value12(false, x, y % 16 + n * 16) == Value12(false, x, y)
  {
    var q, r := y / 16, y % 16;
    assert x + 256 * y == 4096 * q + (256 * r + x);
    Mod4096(q, 256 * r + x);
    assert x + 256 * (r + n * 16) == 4096 * n + (256 * r + x);
    Mod4096(n, 256 * r + x);
  }

  lemma Stored12At(t: seq<byte>, c: nat, v: nat, d: nat)
    requires c + c / 2 + 2 <= |t| && d + d / 2 + 2 <= |t|
    ensures Value(Fat12, Stored(Fat12, t, c, v), d) == if d == c then v % 4096 else Value(Fat12, t, d)
  {
    var o := c + c / 2;
    var p := d + d / 2;
    if d == c {
      OddReadsBack(v, t[o], t[o + 1]);
      EvenReadsBack(v, t[o], t[o + 1]);
    } else if d == c + 1 && c % 2 == 0 {
      assert p == o + 1;
      KeepHighNibble(t[p], t[p + 1], v / 256 % 16);
    } else if c == d + 1 && c % 2 == 1 {
      assert p + 1 == o;
      KeepLowNibble(t[p], t[o], v % 16);
    } else {
      assert p + 1 < o || o + 1 < p;
    }
  }

  /** Even half of a 12-bit store disturbs no other entry. */
  lemma HalfStored12(t: seq<byte>, c: nat, v: nat, d: nat)
    requires c + c / 2 + 2 <= |t| && d + d / 2 + 2 <= |t| && d != c
    ensures var o := c + c / 2;
            Value(Fat12, t[o := Low12(c % 2 == 1, t[o], v)], d) == Value(Fat12, t, d)
  {
    var o := c + c / 2;
    var p := d + d / 2;
    if c == d + 1 && c % 2 == 1 {
      assert p + 1 == o;
      KeepLowNibble(t[p], t[o], v % 16);
    } else {
      assert p + 1 < o || o < p;
    }
  }

  /** So a store that fails half way damages only its own entry. */
  lemma HalfStoredEntry(t: seq<byte>, fat: seq<nat>, c: nat, v: nat)
    requires Represents(Fat12, t, fat) && c < |fat|
    ensures var o := c + c / 2;
            && o + 2 <= |t|
            && var t' := t[o := Low12(c % 2 == 1, t[o], v)];
               Represents(Fat12, t', fat[c := Value(Fat12, t', c)])
  {
    EntryInTable(Fat12, c, |fat|);
    var o := c + c / 2;
    var t' := t[o := Low12(c % 2 == 1, t[o], v)];
    forall d: nat | d < |fat|
      ensures d + d / 2 + 2 <= |t| && Value(Fat12, t', d) == fat[c := Value(Fat12, t', c)][d]
    {
      EntryInTable(Fat12, d, |fat|);
      assert fat[d] == Value(Fat12, t, d) by { assert EntryOffset(Fat12, d) == d + d / 2; }
      if d != c {
        HalfStored12(t, c, v, d);
      }
    }
  }

  lemma DwordSum(w: nat)
    requires w < 0x1_0000_0000
    ensures w % 256 + 256 * (w / 256 % 256) + 0x1_0000 * (w / 0x1_0000 % 256) + 0x100_0000 * (w / 0x100_0000 % 256) == w
  {
    assert w / 0x1_0000 == w / 256 / 256;
    assert w / 0x100_0000 == w / 0x1_0000 / 256;
  }

  /** A stored word or double word reads back, and no other aligned one changes. */
  lemma StoredWord(t: seq<byte>, o: nat, v: nat, p: nat)
    requires o + 2 <= |t| && p + 2 <= |t| && (o == p || p + 2 <= o || o + 2 <= p)
    ensures LdWord(StWord(t, o, v), p) == if p == o then v % 0x1_0000 else LdWord(t, p)
  {
    assert v % 0x1_0000 == v % 256 + 256 * (v / 256 % 256);
  }

  lemma StoredDword(t: seq<byte>, o: nat, w: nat, p: nat)
    requires o + 4 <= |t| && p + 4 <= |t| && (o == p || p + 4 <= o || o + 4 <= p) && w < 0x1_0000_0000
    ensures LdDword(StDword(t, o, w), p) == if p == o then w else LdDword(t, p)
  {
    DwordSum(w);
  }

  lemma Stored32At(t: seq<byte>, c: nat, v: nat, d: nat)
    requires c * 4 + 4 <= |t| && d * 4 + 4 <= |t|
    ensures Value(Fat32, Stored(Fat32, t, c, v), d) == if d == c then v % 0x1000_0000 else Value(Fat32, t, d)
    ensures ReservedBits(Stored(Fat32, t, c, v), d) == ReservedBits(t, d)
  {
    StoredDword(t, c * 4, UnderReserved(LdDword(t, c * 4), v), d * 4);
  }

  /** Storing an entry sets that entry to the value cut to the entry's width and no other; FAT32's reserved bits survive. */
  lemma StoredEntry(k: FatKind, t: seq<byte>, fat: seq<nat>, c: nat, v: nat)
    requires Represents(k, t, fat) && c < |fat|
    ensures EntryOffset(k, c) + EntryWidth(k) <= |t|
    ensures Represents(k, Stored(k, t, c, v), fat[c := k.Fit(v)])
    ensures k.Fat32? ==>
              forall d: nat :: d * 4 + 4 <= |t| ==> ReservedBits(Stored(k, t, c, v), d) == ReservedBits(t, d)
  {
    EntryInTable(k, c, |fat|);
    var t' := Stored(k, t, c, v);
    forall d: nat | d < |fat|
      ensures EntryOffset(k, d) + EntryWidth(k) <= |t|
      ensures Value(k, t', d) == fat[c := k.Fit(v)][d]
    {
      EntryInTable(k, d, |fat|);
      match k {
        case Fat12 => Stored12At(t, c, v, d);
        case Fat16 => StoredWord(t, c * 2, v, d * 2);
        case Fat32 => Stored32At(t, c, v, d);
      }
    }
    if k.Fat32? {
      forall d: nat | d * 4 + 4 <= |t| ensures ReservedBits(t', d) == ReservedBits(t, d) {
        Stored32At(t, c, v, d);
      }
    }
  }

  /** A 12-bit store, one byte after the other. */
  lemma StoredInHalves(t: seq<byte>, fat: seq<nat>, c: nat, v: nat)
    requires Represents(Fat12, t, fat) && c < |fat|
    ensures var o := c + c / 2;
            && o + 2 <= |t|
            && var t1 := t[o := Low12(c % 2 == 1, t[o], v)];
               var t2 := t1[o + 1 := High12(c % 2 == 1, t1[o + 1], v)];
               && Represents(Fat12, t1, fat[c := Value(Fat12, t1, c)])
               && t2 == Stored(Fat12, t, c, v)
               && Represents(Fat12, t2, fat[c := v % 4096])
  {
    HalfStoredEntry(t, fat, c, v);
    StoredEntry(Fat12, t, fat, c, v);
  }

  // ---- the table on disk ----

  /** The bytes of the first FAT copy. */
  function Table(g: Geometry, log: seq<Sector>): (t: seq<byte>)
    requires g.Sane() && |log| == g.nSectors
    ensures |t| == g.fsize * 512
  {
    Flatten(log, g.fatbase, g.fsize)
  }

  lemma TableByte(g: Geometry, log: seq<Sector>, o: nat)
    requires g.Sane() && |log| == g.nSectors && o < g.fsize * 512
    ensures g.InFat(g.fatbase + o / 512) && Table(g, log)[o] == log[g.fatbase + o / 512][o % 512]
  {
    FlattenAt(log, g.fatbase, g.fsize, o);
  }

  /** fat is the file allocation table held in the first FAT copy of a disk. */
  ghost predicate HoldsFat(g: Geometry, log: seq<Sector>, fat: seq<nat>)
    requires g.Sane() && |log| == g.nSectors
  {
    |fat| == g.nFatent && Represents(g.kind, Table(g, log), fat)
  }

  /** The number in the n bytes from byte o of a run of sectors on; there are none beyond the disk. */
  function DiskNumber(log: seq<Sector>, at: nat, o: nat, n: nat): nat
    decreases n
  {
    if n == 0 || at + o / 512 >= |log| then 0 else log[at + o / 512][o % 512] + 256 * DiskNumber(log, at, o + 1, n - 1)
  }

  lemma {:induction false} TableNumber(g: Geometry, log: seq<Sector>, o: nat, n: nat)
    requires g.Sane() && |log| == g.nSectors && o + n <= g.fsize * 512
    ensures DiskNumber(log, g.fatbase, o, n) == Number(Table(g, log), o, n)
    decreases n
  {
    if n > 0 {
      TableByte(g, log, o);
      TableNumber(g, log, o + 1, n - 1);
    }
  }

  /** The table on disk, byte by byte: pairs of 12-bit entries, */
  lemma PairOnDisk(g: Geometry, log: seq<Sector>, fat: seq<nat>, c: nat)
    requires g.Sane() && |log| == g.nSectors && HoldsFat(g, log, fat) && c < g.nFatent && g.kind.Fat12?
    ensures c % 2 == 0 ==> fat[c] == DiskNumber(log, g.fatbase, 3 * (c / 2), 2) % 0x1000
    ensures c % 2 == 1 ==> fat[c - 1] + 0x1000 * fat[c] == DiskNumber(log, g.fatbase, 3 * (c / 2), 3)
  {
    var t := Table(g, log);
    assert Fat12.TableBytes(c + 1) <= Fat12.TableBytes(g.nFatent);
    EntryBytes(Fat12, t, c);
    EntryAt(g, log, fat, c);
    if c % 2 == 1 {
      EntryAt(g, log, fat, c - 1);
      TableNumber(g, log, 3 * (c / 2), 3);
    } else {
      TableNumber(g, log, 3 * (c / 2), 2);
    }
  }

  /** and 16-bit and 28-bit entries. */
  lemma EntryOnDisk(g: Geometry, log: seq<Sector>, fat: seq<nat>, c: nat)
    requires g.Sane() && |log| == g.nSectors && HoldsFat(g, log, fat) && c < g.nFatent && !g.kind.Fat12?
    ensures g.kind.Fat16? ==> fat[c] == DiskNumber(log, g.fatbase, 2 * c, 2)
    ensures g.kind.Fat32? ==> fat[c] == DiskNumber(log, g.fatbase, 4 * c, 4) % 0x1000_0000
  {
    EntryBytes(g.kind, Table(g, log), c);
    EntryAt(g, log, fat, c);
    if g.kind.Fat16? {
      TableNumber(g, log, 2 * c, 2);
    } else {
      TableNumber(g, log, 4 * c, 4);
    }
  }

  /** An entry of the table. */
  lemma EntryAt(g: Geometry, log: seq<Sector>, fat: seq<nat>, c: nat)
    requires g.Sane() && |log| == g.nSectors && HoldsFat(g, log, fat) && c < g.nFatent
    ensures EntryOffset(g.kind, c) + EntryWidth(g.kind) <= g.fsize * 512
    ensures fat[c] == Value(g.kind, Table(g, log), c) <= g.kind.Mask()
  {
  }

  /** The table depends on nothing but the first FAT copy. */
  lemma TableSame(g: Geometry, a: seq<Sector>, b: seq<Sector>)
    requires g.Sane() && |a| == g.nSectors && |b| == g.nSectors
    requires forall s :: g.InFat(s) ==> a[s] == b[s]
    ensures Table(g, a) == Table(g, b)
  {
    forall o: nat | o < g.fsize * 512 ensures Table(g, a)[o] == Table(g, b)[o] {
      TableByte(g, a, o);
      TableByte(g, b, o);
    }
  }

  /** So writes elsewhere leave it alone. */
  lemma FatUntouched(g: Geometry, a: seq<Sector>, b: seq<Sector>, fat: seq<nat>)
    requires g.Sane() && |a| == g.nSectors && |b| == g.nSectors && HoldsFat(g, a, fat)
    requires forall s :: g.InFat(s) ==> a[s] == b[s]
    ensures HoldsFat(g, b, fat)
  {
    TableSame(g, a, b);
  }

  /** Storing bytes of a FAT sector stores those bytes of the table. */
  lemma TableStore(g: Geometry, a: seq<Sector>, o: nat, bytes: seq<byte>)
    requires g.Sane() && |a| == g.nSectors && o < g.fsize * 512 && o % 512 + |bytes| <= 512
    ensures o + |bytes| <= g.fsize * 512
    ensures var s := g.fatbase + o / 512;
            Table(g, a[s := Replace(a[s], o % 512, bytes)]) == Replace(Table(g, a), o, bytes)
  {
    var s := g.fatbase + o / 512;
    assert o == o / 512 * 512 + o % 512;
    var b := a[s := Replace(a[s], o % 512, bytes)];
    forall p: nat | p < g.fsize * 512 ensures Table(g, b)[p] == Replace(Table(g, a), o, bytes)[p] {
      TableByte(g, a, p);
      TableByte(g, b, p);
      if p / 512 == o / 512 {
        assert p - o == p % 512 - o % 512;
      } else {
        assert !(o <= p < o + |bytes|) by { NotWithin(o, p, |bytes|); }
      }
    }
  }

  lemma NotWithin(o: nat, p: nat, n: nat)
    requires o % 512 + n <= 512 && p / 512 != o / 512
    ensures !(o <= p < o + n)
  {
  }

  /** An aligned word of the table lies inside one sector. */
  lemma TableWord(g: Geometry, log: seq<Sector>, o: nat)
    requires g.Sane() && |log| == g.nSectors && o % 2 == 0 && o + 2 <= g.fsize * 512
    ensures o % 512 + 2 <= 512 && (o + 1) / 512 == o / 512 && (o + 1) % 512 == o % 512 + 1
    ensures LdWord(Table(g, log), o) == LdWord(log[g.fatbase + o / 512], o % 512)
  {
    WordInSector(o);
    TableByte(g, log, o);
    TableByte(g, log, o + 1);
  }

  lemma WordInSector(o: nat)
    requires o % 2 == 0
    ensures o % 512 + 2 <= 512 && (o + 1) / 512 == o / 512 && (o + 1) % 512 == o % 512 + 1
  {
  }

  /** So does an aligned double word. */
  lemma TableDword(g: Geometry, log: seq<Sector>, o: nat)
    requires g.Sane() && |log| == g.nSectors && o % 4 == 0 && o + 4 <= g.fsize * 512
    ensures o % 512 + 4 <= 512
    ensures LdDword(Table(g, log), o) == LdDword(log[g.fatbase + o / 512], o % 512)
  {
    InOneSector(o, 1); InOneSector(o, 2); InOneSector(o, 3);
    TableByte(g, log, o); TableByte(g, log, o + 1); TableByte(g, log, o + 2); TableByte(g, log, o + 3);
  }

  lemma InOneSector(o: nat, k: nat)
    requires o % 4 == 0 && k < 4
    ensures (o + k) / 512 == o / 512 && (o + k) % 512 == o % 512 + k && o % 512 + 4 <= 512
  {
    var q, r := o / 512, o % 512;
    assert o == 512 * q + r;
    assert r % 4 == 0;
  }

  // ---- entries in the sector that holds them ----

  /** A FAT16 entry is a word of one FAT sector. */
  lemma WordEntry(g: Geometry, log: seq<Sector>, c: nat)
    requires g.Sane() && |log| == g.nSectors && c < g.nFatent && g.kind.Fat16?
    ensures var o := c * 2;
            var s := g.fatbase + o / 512;
            && o + 2 <= g.fsize * 512 && o % 512 + 2 <= 512 && g.InFat(s)
            && LdWord(log[s], o % 512) == LdWord(Table(g, log), o)
  {
    EntryInTable(g.kind, c, g.nFatent);
    TableWord(g, log, c * 2);
  }

  /** A FAT32 entry is the low part of a double word of one FAT sector. */
  lemma DwordEntry(g: Geometry, log: seq<Sector>, c: nat)
    requires g.Sane() && |log| == g.nSectors && c < g.nFatent && g.kind.Fat32?
    ensures var o := c * 4;
            var s := g.fatbase + o / 512;
            && o + 4 <= g.fsize * 512 && o % 512 + 4 <= 512 && g.InFat(s)
            && LdDword(log[s], o % 512) == LdDword(Table(g, log), o)
  {
    EntryInTable(g.kind, c, g.nFatent);
    TableDword(g, log, c * 4);
  }

  /** The double word that put_fat stores for a FAT32 entry, computed from the sector it lies in. */
  lemma DwordStored(g: Geometry, log: seq<Sector>, fat: seq<nat>, c: nat, v: nat, s: Sector)
    requires g.Sane() && |log| == g.nSectors && HoldsFat(g, log, fat) && c < g.nFatent && g.kind.Fat32?
    requires g.fatbase + c * 4 / 512 < |log| && s == log[g.fatbase + c * 4 / 512]
    ensures var o := c * 4;
            && o + 4 <= g.fsize * 512 && o % 512 + 4 <= 512
            && var w := UnderReserved(LdDword(s, o % 512), v);
               && Replace(Table(g, log), o, DwordBytes(w)) == Stored(Fat32, Table(g, log), c, v)
               && Represents(Fat32, Replace(Table(g, log), o, DwordBytes(w)), fat[c := v % 0x1000_0000])
  {
    DwordEntry(g, log, c);
    StoredEntry(Fat32, Table(g, log), fat, c, v);
  }

  // ---- the write-back window ----

  /** The window shows its sector, the logical disk is what the window and the device show together,
      and it holds the table. */
  ghost predicate TiedOf(g: Geometry, disk: seq<Sector>, dirty: bool, at: nat, content: seq<byte>,
                         log: seq<Sector>, fat: seq<nat>)
    requires g.Sane() && |disk| == |log| == g.nSectors
  {
    && (dirty ==> at < g.nSectors)
    && (!dirty && at < g.nSectors ==> content == disk[at])
    && Shows(g, disk, dirty, at, content, log)
    && HoldsFat(g, log, fat)
  }

  /** Data written past the window changes the same sectors of the logical disk. */
  lemma TiedWritten(g: Geometry, disk: seq<Sector>, disk': seq<Sector>, dirty: bool, at: nat, content: seq<byte>,
                    log: seq<Sector>, fat: seq<nat>, sector: nat, n: nat)
    requires g.Sane() && |disk| == |disk'| == |log| == g.nSectors && sector + n <= |disk|
    requires TiedOf(g, disk, dirty, at, content, log, fat)
    requires g.database <= sector && !(sector <= at < sector + n)
    requires forall s :: 0 <= s < |disk| && !(sector <= s < sector + n) ==> disk'[s] == disk[s]
    ensures TiedOf(g, disk', dirty, at, content, Replace(log, sector, disk'[sector..sector + n]), fat)
  {
    FatUntouched(g, log, Replace(log, sector, disk'[sector..sector + n]), fat);
  }

  /** Writing the sector of a dirty window changes nothing in the logical disk, even if the write fails. */
  lemma TiedWrittenBack(g: Geometry, disk: seq<Sector>, disk': seq<Sector>, at: nat, content: seq<byte>,
                        log: seq<Sector>, fat: seq<nat>)
    requires g.Sane() && |disk| == |disk'| == |log| == g.nSectors
    requires TiedOf(g, disk, true, at, content, log, fat)
    requires forall s :: 0 <= s < |disk| && s != at ==> disk'[s] == disk[s]
    ensures TiedOf(g, disk', true, at, content, log, fat)
    ensures disk'[at] == content ==> TiedOf(g, disk', false, at, content, log, fat)
  {
  }

  /** Neither do writes to the second FAT copy while the window is elsewhere and clean. */
  lemma TiedReflected(g: Geometry, disk: seq<Sector>, disk': seq<Sector>, at: nat, content: seq<byte>,
                      log: seq<Sector>, fat: seq<nat>)
    requires g.Sane() && |disk| == |disk'| == |log| == g.nSectors && !g.InMirror(at)
    requires TiedOf(g, disk, false, at, content, log, fat)
    requires forall s :: 0 <= s < |disk| && !g.InMirror(s) ==> disk'[s] == disk[s]
    ensures TiedOf(g, disk', false, at, content, log, fat)
  {
  }
}
