/**
 Whole runs: any sequence of chain operations on a volume, and any sequence of reads, writes, seeks, truncations and
 synchronizations of an open file.
 */
module FatRuns {
  import opened Hiding
  import opened ByteSeqs
  import opened FatDisk
  import opened FatChains
  import opened FatLayout
  import opened FatFileState
  import opened FatVolume
  import opened FatFile

  // ---- chains ----

  datatype Request = New | Stretch(k: nat) | Shrink(k: nat, n: nat) | Drop(k: nat)

  /** Every cluster in use belongs to one of the chains. */
  ghost predicate Covered(fat: seq<nat>, chains: seq<seq<nat>>) {
    forall c: nat :: InTable(fat, c) && fat[c] != 0 ==> Owned(chains, c)
  }

  ghost predicate Owned(chains: seq<seq<nat>>, c: nat) {
    exists k :: 0 <= k < |chains| && c in chains[k]
  }

  lemma NewKeepsCovered(fat: seq<nat>, chains: seq<seq<nat>>, ncl: nat, eoc: nat)
    requires Covered(fat, chains) && InTable(fat, ncl)
    ensures Covered(fat[ncl := eoc], chains + [[ncl]])
  {
    var chains' := chains + [[ncl]];
    forall c: nat | InTable(fat, c) && fat[ncl := eoc][c] != 0 ensures Owned(chains', c) {
      if c == ncl {
        assert c in chains'[|chains|];
      } else {
        var k :| 0 <= k < |chains| && c in chains[k];
        assert c in chains'[k];
      }
    }
  }

  lemma StretchKeepsCovered(fat: seq<nat>, chains: seq<seq<nat>>, k: nat, ncl: nat, eoc: nat)
    requires Covered(fat, chains) && k < |chains| && IsChain(fat, chains[k]) && InTable(fat, ncl)
    ensures var ch := chains[k]; Covered(Linked(fat, ch[|ch| - 1], ncl, eoc), chains[k := ch + [ncl]])
  {
    var ch := chains[k];
    var last := ch[|ch| - 1];
    var fat', chains' := Linked(fat, last, ncl, eoc), chains[k := ch + [ncl]];
    forall c: nat | InTable(fat, c) && fat'[c] != 0 ensures Owned(chains', c) {
      if c == ncl || c == last {
        assert c in chains'[k];
      } else {
        var l :| 0 <= l < |chains| && c in chains[l];
        assert c in chains'[l];
      }
    }
  }

  lemma ShrinkKeepsCovered(fat: seq<nat>, chains: seq<seq<nat>>, k: nat, n: nat, eoc: nat)
    requires Covered(fat, chains) && k < |chains| && IsChain(fat, chains[k]) && 0 < n < |chains[k]| && eoc >= |fat|
    ensures Covered(Cut(fat, chains[k][n], chains[k][n - 1], eoc), chains[k := chains[k][..n]])
  {
    var ch := chains[k];
    var fat', chains' := Cut(fat, ch[n], ch[n - 1], eoc), chains[k := ch[..n]];
    CutChain(fat, ch, n, eoc);
    NotFree(fat, ch);
    forall c: nat | InTable(fat, c) && fat'[c] != 0 ensures Owned(chains', c) {
      assert c !in ch[n..];
      assert fat[c] != 0;
      var l :| 0 <= l < |chains| && c in chains[l];
      if l == k {
        assert c in ch[..n] + ch[n..];
      }
      assert c in chains'[l];
    }
  }

  lemma DropKeepsCovered(fat: seq<nat>, chains: seq<seq<nat>>, k: nat, eoc: nat)
    requires Covered(fat, chains) && k < |chains| && IsChain(fat, chains[k])
    ensures Covered(Cut(fat, chains[k][0], 0, eoc), chains[..k] + chains[k + 1..])
  {
    var ch := chains[k];
    var fat', chains' := Cut(fat, ch[0], 0, eoc), chains[..k] + chains[k + 1..];
    RemovedChain(fat, ch);
    forall c: nat | InTable(fat, c) && fat'[c] != 0 ensures Owned(chains', c) {
      var l :| 0 <= l < |chains| && c in chains[l];
      var m := if l < k then l else l - 1;
      assert chains'[m] == chains[l];
    }
  }

  /** Every cluster of the volume belongs to a chain. */
  ghost predicate AllOwned(g: Geometry, chains: seq<seq<nat>>) {
    forall c: nat :: g.IsCluster(c) ==> Owned(chains, c)
  }

  /** c is a cluster of the volume that belonged to no chain. */
  ghost predicate Unowned(g: Geometry, chains: seq<seq<nat>>, c: nat) {
    g.IsCluster(c) && !Owned(chains, c)
  }

  /** The chains after a request: a cluster that belonged to none at the end of a chain or as a new one, or a chain cut
      short or dropped. Only if every cluster belongs to a chain does a request for one change nothing. */
  ghost predicate Served(g: Geometry, chains: seq<seq<nat>>, req: Request, chains': seq<seq<nat>>) {
    match req
    case New =>
      if AllOwned(g, chains) then chains' == chains
      else exists c :: Unowned(g, chains, c) && chains' == chains + [[c]]
    case Stretch(k) =>
      && k < |chains|
      && if AllOwned(g, chains) then chains' == chains
         else exists c :: Unowned(g, chains, c) && chains' == chains[k := chains[k] + [c]]
    case Shrink(k, n) => k < |chains| && n <= |chains[k]| && chains' == chains[k := chains[k][..n]]
    case Drop(k) => k < |chains| && chains' == chains[..k] + chains[k + 1..]
  }

  /** A request names a chain of the client and, to shrink it, a part of it that is not empty. */
  predicate Fits(chains: seq<seq<nat>>, req: Request) {
    match req
    case New => true
    case Stretch(k) => k < |chains|
    case Shrink(k, n) => k < |chains| && 0 < n < |chains[k]|
    case Drop(k) => k < |chains|
  }

  /** Disjoint chains that own all the space in use, a right free count and equal FAT copies. */
  ghost predicate Healthy(vol: Volume, chains: seq<seq<nat>>)
    reads vol, vol.win
  {
    && vol.Valid() && vol.reliable
    && WellFormed(vol.fat, chains) && Covered(vol.fat, chains)
    && !HasOne(vol.fat) && vol.CountRight() && vol.Mirrored()
  }

  /** A cluster is in use exactly if it belongs to a chain. */
  lemma OwnedIffUsed(fat: seq<nat>, chains: seq<seq<nat>>, c: nat)
    requires WellFormed(fat, chains) && Covered(fat, chains) && InTable(fat, c)
    ensures fat[c] != 0 <==> Owned(chains, c)
  {
    if Owned(chains, c) {
      var k :| 0 <= k < |chains| && c in chains[k];
      NotFree(fat, chains[k]);
    }
  }

  /** So no cluster is free exactly if all belong to chains. */
  lemma AllOwnedIffNoneFree(g: Geometry, fat: seq<nat>, chains: seq<seq<nat>>)
    requires |fat| == g.nFatent && WellFormed(fat, chains) && Covered(fat, chains)
    ensures AllOwned(g, chains) <==> NoneFree(fat, 2, |fat|)
  {
    forall c: nat | InTable(fat, c) ensures g.IsCluster(c) && (fat[c] != 0 <==> Owned(chains, c)) {
      OwnedIffUsed(fat, chains, c);
    }
  }

  /** Take a cluster for a chain that ends in clst, or for a new one, if any cluster is free. */
  method TakeCluster(vol: Volume, clst: nat) returns (c: nat)
    requires vol.Valid() && vol.reliable && !HasOne(vol.fat) && vol.CountRight() && vol.Mirrored()
    requires clst == 0 || EndOfChain(vol.fat, clst)
    modifies vol, vol.win
    ensures vol.Valid() && !HasOne(vol.fat) && vol.CountRight() && vol.Mirrored()
    ensures c == 0 ==> vol.fat == old(vol.fat) && NoneFree(vol.fat, 2, vol.g.nFatent)
    ensures c != 0 ==>
              && InTable(old(vol.fat), c) && old(vol.fat)[c] == 0
              && vol.fat == Linked(old(vol.fat), clst, c, vol.g.kind.Mask())
  {
    c := vol.CreateChain(clst);
  }

  method Create(vol: Volume, chains: seq<seq<nat>>) returns (chains': seq<seq<nat>>)
    requires Healthy(vol, chains)
    modifies vol, vol.win
    ensures Healthy(vol, chains') && Served(vol.g, chains, New, chains')
  {
    ghost var fat := vol.fat;
    AllOwnedIffNoneFree(vol.g, fat, chains);
    var c := TakeCluster(vol, 0);
    chains' := chains;
    if c != 0 {
      OwnedIffUsed(fat, chains, c);
      NewKeepsWellFormed(fat, chains, c, vol.g.kind.Mask());
      NewKeepsCovered(fat, chains, c, vol.g.kind.Mask());
      chains' := chains + [[c]];
    }
  }

  method Lengthen(vol: Volume, chains: seq<seq<nat>>, k: nat) returns (chains': seq<seq<nat>>)
    requires Healthy(vol, chains) && Fits(chains, Stretch(k))
    modifies vol, vol.win
    ensures Healthy(vol, chains') && Served(vol.g, chains, Stretch(k), chains')
  {
    ghost var fat := vol.fat;
    AllOwnedIffNoneFree(vol.g, fat, chains);
    var ch := chains[k];
    assert IsChain(fat, ch);
    var c := TakeCluster(vol, ch[|ch| - 1]);
    chains' := chains;
    if c != 0 {
      OwnedIffUsed(fat, chains, c);
      StretchKeepsWellFormed(fat, chains, k, c, vol.g.kind.Mask());
      StretchKeepsCovered(fat, chains, k, c, vol.g.kind.Mask());
      chains' := chains[k := ch + [c]];
    }
  }

  method Cutting(vol: Volume, chains: seq<seq<nat>>, req: Request) returns (chains': seq<seq<nat>>)
    requires Healthy(vol, chains) && Fits(chains, req) && (req.Shrink? || req.Drop?)
    modifies vol, vol.win
    ensures Healthy(vol, chains') && Served(vol.g, chains, req, chains')
  {
    ghost var fat, eoc := vol.fat, vol.g.kind.Mask();
    var ch := chains[req.k];
    var n := if req.Shrink? then req.n else 0;
    var pclst := if n == 0 then 0 else ch[n - 1];
    CutAnywhere(fat, ch, n, eoc);
    CutHasNoNewOne(fat, ch[n], pclst, eoc);
    NotFree(fat, ch);
    var res := vol.RemoveChain(ch[n], pclst);
    if req.Shrink? {
      CutKeepsWellFormed(fat, chains, req.k, n, eoc);
      ShrinkKeepsCovered(fat, chains, req.k, n, eoc);
      chains' := chains[req.k := ch[..n]];
    } else {
      DropKeepsWellFormed(fat, chains, req.k, eoc);
      DropKeepsCovered(fat, chains, req.k, eoc);
      chains' := chains[..req.k] + chains[req.k + 1..];
    }
  }

  /** One step of a run: a request that names no chain is skipped. */
  ghost predicate Stepped(g: Geometry, chains: seq<seq<nat>>, req: Request, chains': seq<seq<nat>>) {
    if Fits(chains, req) then Served(g, chains, req, chains') else chains' == chains
  }

  method ServeOne(vol: Volume, chains: seq<seq<nat>>, req: Request) returns (chains': seq<seq<nat>>)
    requires Healthy(vol, chains)
    modifies vol, vol.win
    ensures Healthy(vol, chains') && Stepped(vol.g, chains, req, chains')
  {
    chains' := chains;
    if Fits(chains, req) {
      match req
      case New => chains' := Create(vol, chains);
      case Stretch(k) => chains' := Lengthen(vol, chains, k);
      case _ => chains' := Cutting(vol, chains, req);
    }
  }

  /** Serve all requests in turn; hist lists the chains before and after each. After every request the chains are
      disjoint and own exactly the space in use, and in the end the two FAT copies are the same, sector for sector. */
  method ServeAll(vol: Volume, start: seq<seq<nat>>, reqs: seq<Request>)
    returns (chains: seq<seq<nat>>, ghost hist: seq<seq<seq<nat>>>)
    requires Healthy(vol, start)
    modifies vol, vol.win
    ensures Healthy(vol, chains)
    ensures |hist| == |reqs| + 1 && hist[0] == start && hist[|reqs|] == chains
    ensures forall i :: 0 <= i < |reqs| ==> Stepped(vol.g, hist[i], reqs[i], hist[i + 1])
    ensures vol.g.nFats == 2 ==> forall s :: vol.g.InFat(s) ==> vol.disk[s + vol.g.fsize] == vol.disk[s]
    ensures forall c: nat :: vol.g.IsCluster(c) ==> (vol.fat[c] != 0 <==> Owned(chains, c))
  {
    chains, hist := start, [start];
    var i := 0;
    while i < |reqs|
      invariant i <= |reqs| && Healthy(vol, chains)
      invariant |hist| == i + 1 && hist[0] == start && hist[i] == chains
      invariant forall j :: 0 <= j < i ==> Stepped(vol.g, hist[j], reqs[j], hist[j + 1])
    {
      chains := ServeOne(vol, chains, reqs[i]);
      hist := hist + [chains];
      i := i + 1;
    }
    Settle(vol, chains);
    forall c: nat | vol.g.IsCluster(c) ensures vol.fat[c] != 0 <==> Owned(chains, c) {
      OwnedIffUsed(vol.fat, chains, c);
    }
  }

  /** Write the window back: then the FAT copies are the same. */
  method Settle(vol: Volume, ghost chains: seq<seq<nat>>)
    requires Healthy(vol, chains)
    modifies vol, vol.win
    ensures Healthy(vol, chains)
    ensures vol.g.nFats == 2 ==> forall s :: vol.g.InFat(s) ==> vol.disk[s + vol.g.fsize] == vol.disk[s]
  {
    var ok := vol.SyncWindow();
  }

  // ---- files ----

  datatype Op = ReadOp(n: nat) | WriteOp(data: seq<byte>) | SeekOp(ofs: nat) | TruncateOp | SyncOp

  /** A file as its user sees it. */
  datatype Tape = Tape(bytes: seq<byte>, pos: nat)

  /** What an operation does to a tape that can hold cap bytes; data is what it reads, n the number of bytes read or
      written. */
  ghost predicate Acted(cap: nat, t: Tape, op: Op, data: seq<byte>, n: nat, t': Tape)
    requires t.pos <= |t.bytes| <= cap
  {
    match op
    case ReadOp(m) =>
      n == Least(m, |t.bytes| - t.pos) && data == t.bytes[t.pos..t.pos + n] && t' == Tape(t.bytes, t.pos + n)
    case WriteOp(d) => n == Least(|d|, cap - t.pos) && t' == Tape(Spliced(t.bytes, t.pos, d[..n]), t.pos + n)
    case SeekOp(ofs) =>
      t'.pos == Least(ofs, cap) && t.bytes <= t'.bytes && |t'.bytes| == if t'.pos > |t.bytes| then t'.pos else |t.bytes|
    case TruncateOp => t' == Tape(t.bytes[..t.pos], t.pos)
    case SyncOp => t' == t
  }

  ghost predicate Small(op: Op) {
    (op.WriteOp? ==> |op.data| <= 0xFFFF_FFFF) && (op.SeekOp? ==> op.ofs <= 0xFFFF_FFFF)
  }

  /** A sound file open for reading and writing, on a device that does not fail. */
  ghost predicate Ready(f: File)
    reads f, f.buf, f.vol, f.vol.win
  {
    f.err == Ok && f.canRead && f.canWrite && f.Valid() && f.Sound() && f.vol.reliable
  }

  ghost function TapeOf(f: File): Tape
    reads f
  {
    Tape(f.content, f.fptr)
  }

  /** How many bytes the file can have: those of the clusters that it has or that are free, up to the largest size. */
  ghost function Capacity(f: File): nat {
    Least(0xFFFF_FFFF, f.Limit())
  }

  /** The device, without the buffer and the window, holds the bytes of the file. */
  ghost predicate Stored(f: File)
    requires f.Valid() && f.err == Ok
    reads f, f.buf, f.vol, f.vol.win
  {
    && f.content == Bytes(SectorsOf(f.vol.g, f.vol.disk, f.chain), f.objsize)
    && OnVolume(f.vol.g, f.vol.fat, f.vol.disk, f.sclust, f.content)
  }

  /** Seek, truncate or synchronize. */
  method Position(f: File, op: Op)
    requires Ready(f) && Small(op) && (op.SeekOp? || op.TruncateOp? || op.SyncOp?)
    modifies f, f.buf, f.vol, f.vol.win
    ensures Ready(f) && old(f.fptr <= |f.content| <= Capacity(f))
    ensures Acted(Capacity(f), old(TapeOf(f)), op, [], 0, TapeOf(f))
    ensures op.SyncOp? ==> Stored(f)
  {
    f.RoomUsed();
    var res: FResult;
    match op {
      case SeekOp(ofs) => res := f.Seek(ofs);
      case TruncateOp => res := f.Truncate();
      case SyncOp => res := f.Sync();
    }
  }

  /** Carry out one operation. A synchronization brings all bytes to the device. */
  method Perform(f: File, op: Op) returns (data: seq<byte>, n: nat)
    requires Ready(f) && Small(op)
    modifies f, f.buf, f.vol, f.vol.win
    ensures Ready(f) && old(f.fptr <= |f.content| <= Capacity(f))
    ensures Acted(Capacity(f), old(TapeOf(f)), op, data, n, TapeOf(f))
    ensures op.SyncOp? ==> Stored(f)
  {
    f.RoomUsed();
    data, n := [], 0;
    var res: FResult;
    match op {
      case ReadOp(m) => res, data := f.Read(m); n := |data|;
      case WriteOp(d) => res, n := f.Write(d);
      case _ => Position(f, op);
    }
  }

  /** hist lists the tape before and after each operation. */
  ghost predicate TapeRun(cap: nat, hist: seq<Tape>, ops: seq<Op>, data: seq<seq<byte>>, n: seq<nat>) {
    && |hist| == |ops| + 1 && |data| == |n| == |ops|
    && (forall i :: 0 <= i < |hist| ==> hist[i].pos <= |hist[i].bytes| <= cap)
    && forall i :: 0 <= i < |ops| ==> Acted(cap, hist[i], ops[i], data[i], n[i], hist[i + 1])
  }

  /** Any run of operations on the file is a run on a tape that can hold as many bytes as the clusters of the file and
      the free ones of the volume, and what other files hold stays as it is. When the last operation is a
      synchronization, the device holds the bytes of the tape. */
  method PerformAll(f: File, ops: seq<Op>) returns (data: seq<seq<byte>>, n: seq<nat>, ghost hist: seq<Tape>)
    requires Ready(f) && forall i :: 0 <= i < |ops| ==> Small(ops[i])
    modifies f, f.buf, f.vol, f.vol.win
    ensures Ready(f) && TapeRun(Capacity(f), hist, ops, data, n)
    ensures hist[0] == old(TapeOf(f)) && hist[|ops|] == TapeOf(f)
    ensures ops != [] && ops[|ops| - 1].SyncOp? ==> Stored(f)
    ensures |f.chain| + FreeClusters(f.vol.fat) == old(|f.chain| + FreeClusters(f.vol.fat)) == f.room
    ensures RestKept(f.vol.g, f.vol.fat, f.vol.log, f.chain, f.others, f.below)
  {
    assert f.View().Roomy() by { assert Look(0); }
    f.RoomUsed();
    data, n, hist := [], [], [TapeOf(f)];
    var i := 0;
    while i < |ops|
      invariant i <= |ops| && Ready(f) && TapeRun(Capacity(f), hist, ops[..i], data, n)
      invariant hist[0] == old(TapeOf(f)) && hist[i] == TapeOf(f)
      invariant i > 0 && ops[i - 1].SyncOp? ==> Stored(f)
    {
      var d, m := Perform(f, ops[i]);
      f.RoomUsed();
      data, n, hist := data + [d], n + [m], hist + [TapeOf(f)];
      assert ops[..i + 1] == ops[..i] + [ops[i]];
      i := i + 1;
    }
    assert ops[..i] == ops;
    assert Look(0);
  }

  // ---- what runs come to ----

  /** How long a tape is and where its head is. */
  datatype Shape = Shape(len: nat, pos: nat)

  function ShapeOf(t: Tape): Shape {
    Shape(|t.bytes|, t.pos)
  }

  /** The shape after an operation, whatever the bytes. */
  function Moved(cap: nat, s: Shape, op: Op): (s': Shape)
    requires s.pos <= s.len <= cap
    ensures s'.pos <= s'.len <= cap
  {
    match op
    case ReadOp(m) => s.(pos := s.pos + Least(m, s.len - s.pos))
    case WriteOp(d) => var p := s.pos + Least(|d|, cap - s.pos); Shape(if p > s.len then p else s.len, p)
    case SeekOp(ofs) => var p := Least(ofs, cap); Shape(if p > s.len then p else s.len, p)
    case TruncateOp => Shape(s.pos, s.pos)
    case SyncOp => s
  }

  /** The shape after a sequence of operations. */
  function After(cap: nat, s: Shape, ops: seq<Op>): (s': Shape)
    requires s.pos <= s.len <= cap
    ensures s'.pos <= s'.len <= cap
  {
    if ops == [] then s else Moved(cap, After(cap, s, ops[..|ops| - 1]), ops[|ops| - 1])
  }

  /** The operations alone tell where each step of a run begins. */
  lemma {:induction false} RunShape(cap: nat, hist: seq<Tape>, ops: seq<Op>, data: seq<seq<byte>>, n: seq<nat>, i: nat)
    requires TapeRun(cap, hist, ops, data, n) && i <= |ops|
    ensures ShapeOf(hist[i]) == After(cap, ShapeOf(hist[0]), ops[..i])
    decreases i
  {
    if i > 0 {
      RunShape(cap, hist, ops, data, n, i - 1);
      assert Acted(cap, hist[i - 1], ops[i - 1], data[i - 1], n[i - 1], hist[i]);
      assert ops[..i][..i - 1] == ops[..i - 1];
    }
  }

  /** The operation leaves bytes a .. b-1 alone: it writes outside of them and cuts behind them. */
  predicate Spares(cap: nat, s: Shape, op: Op, a: nat, b: nat)
    requires s.pos <= s.len <= cap
  {
    match op
    case WriteOp(d) => s.pos + Least(|d|, cap - s.pos) <= a || b <= s.pos
    case TruncateOp => b <= s.pos
    case _ => true
  }

  /** So do operations i .. j-1 of a run that starts in shape s. */
  predicate AllSpare(cap: nat, s: Shape, ops: seq<Op>, i: nat, j: nat, a: nat, b: nat)
    requires s.pos <= s.len <= cap && i <= j <= |ops|
  {
    forall k: nat :: i <= k < j ==> Spares(cap, After(cap, s, ops[..k]), ops[k], a, b)
  }

  /** Bytes that no step of a run touches are the same in the end. */
  lemma {:induction false} Persist(cap: nat, hist: seq<Tape>, ops: seq<Op>, data: seq<seq<byte>>, n: seq<nat>,
                                   i: nat, j: nat, a: nat, b: nat)
    requires TapeRun(cap, hist, ops, data, n) && i <= j <= |ops| && a <= b <= |hist[i].bytes|
    requires AllSpare(cap, ShapeOf(hist[0]), ops, i, j, a, b)
    ensures b <= |hist[j].bytes| && hist[j].bytes[a..b] == hist[i].bytes[a..b]
    decreases j - i
  {
    if i < j {
      Persist(cap, hist, ops, data, n, i, j - 1, a, b);
      RunShape(cap, hist, ops, data, n, j - 1);
      SparedStep(cap, hist[j - 1], ops[j - 1], data[j - 1], n[j - 1], hist[j], a, b);
    }
  }

  lemma SparedStep(cap: nat, t: Tape, op: Op, data: seq<byte>, n: nat, t': Tape, a: nat, b: nat)
    requires t.pos <= |t.bytes| <= cap && Acted(cap, t, op, data, n, t')
    requires Spares(cap, ShapeOf(t), op, a, b) && a <= b <= |t.bytes|
    ensures b <= |t'.bytes| && t'.bytes[a..b] == t.bytes[a..b]
  {
    forall k | a <= k < b ensures k < |t'.bytes| && t'.bytes[k] == t.bytes[k] {
      if op.SeekOp? {
        assert t'.bytes[..|t.bytes|][k] == t.bytes[k];
      }
    }
  }

  /** In any run, a read that begins where an earlier write began returns the bytes written there, if no operation
      between the two touches them. Where they begin and what they touch follows from the operations. */
  lemma ReadBack(cap: nat, hist: seq<Tape>, ops: seq<Op>, data: seq<seq<byte>>, n: seq<nat>,
                 i: nat, j: nat, d: seq<byte>)
    requires TapeRun(cap, hist, ops, data, n) && i < j < |ops| && ops[i] == WriteOp(d) && ops[j] == ReadOp(|d|)
    requires var s := ShapeOf(hist[0]);
             var p := After(cap, s, ops[..i]).pos;
             && p + |d| <= cap && After(cap, s, ops[..j]).pos == p
             && AllSpare(cap, s, ops, i + 1, j, p, p + |d|)
    ensures n[i] == |d| && data[j] == d
  {
    RunShape(cap, hist, ops, data, n, i);
    RunShape(cap, hist, ops, data, n, j);
    var a, b := hist[i].pos, hist[i].pos + |d|;
    assert Acted(cap, hist[i], ops[i], data[i], n[i], hist[i + 1]);
    assert d[..|d|] == d;
    assert hist[i + 1].bytes[a..b] == d;
    Persist(cap, hist, ops, data, n, i + 1, j, a, b);
    assert Acted(cap, hist[j], ops[j], data[j], n[j], hist[j + 1]);
  }

  /** Seek, write, seek back, read: as long as there is room, the bytes written are read, whatever the file holds and
      wherever its pointer is. */
  lemma WriteSeekRead(cap: nat, hist: seq<Tape>, ops: seq<Op>, data: seq<seq<byte>>, n: seq<nat>, p: nat, d: seq<byte>)
    requires TapeRun(cap, hist, ops, data, n) && p + |d| <= cap
    requires ops == [SeekOp(p), WriteOp(d), SeekOp(p), ReadOp(|d|)]
    ensures n[1] == |d| && data[3] == d
  {
    var s := ShapeOf(hist[0]);
    AfterOne(cap, s, ops, 0);
    AfterOne(cap, s, ops, 1);
    AfterOne(cap, s, ops, 2);
    ReadBack(cap, hist, ops, data, n, 1, 3, d);
  }

  lemma AfterOne(cap: nat, s: Shape, ops: seq<Op>, i: nat)
    requires s.pos <= s.len <= cap && i < |ops|
    ensures After(cap, s, ops[..i + 1]) == Moved(cap, After(cap, s, ops[..i]), ops[i])
  {
    assert ops[..i + 1][..i] == ops[..i];
  }
}
