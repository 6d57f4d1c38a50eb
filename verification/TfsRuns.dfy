/**
 Whole runs of the tiny file system: it works like a shelf of files that are nothing but bytes, and a count of free
 clusters.
 */
module TfsRuns {
  import opened Hiding
  import opened ByteSeqs
  import opened TfsState
  import opened Tfs

  datatype Op =
    | CreateOp
    | OpenOp(h: nat, mode: Mode)
    | CloseOp(h: nat)
    | WriteOp(h: nat, src: seq<byte>)
    | ReadOp(h: nat, n: nat)
    | SeekOp(h: nat, from: Origin, pos: int)
    | DeleteOp(h: nat)
    | LockOp(h: nat)
    | UnlockOp(h: nat)

  datatype File = File(content: seq<byte>, erased: bool, readonly: bool, ctl: Ctl)

  datatype Shelf = Shelf(files: seq<File>, free: nat)

  /** What an operation returns: success, the handle of a new file, the bytes read, the number of bytes written. */
  datatype Reply = Reply(ok: bool, handle: nat, out: seq<byte>, n: nat)

  // ---- what operations do to a shelf ----

  /** The first unused file from h on. */
  function FirstErased(files: seq<File>, h: nat): (r: nat)
    requires h <= |files|
    ensures h <= r <= |files|
    ensures r < |files| ==> files[r].erased
    ensures forall j :: h <= j < r ==> !files[j].erased
    decreases |files| - h
  {
    if h == |files| || files[h].erased then h else FirstErased(files, h + 1)
  }

  predicate CanOpen(v: Shelf, h: nat, mode: Mode) {
    && h < |v.files| && !v.files[h].erased && !v.files[h].ctl.locked && !v.files[h].ctl.open
    && !(mode == ForWriting && v.files[h].readonly)
  }

  predicate CanRead(v: Shelf, h: nat) {
    && h < |v.files| && !v.files[h].ctl.locked && v.files[h].ctl.open
    && v.files[h].ctl.seek < |v.files[h].content|
  }

  /** The write is allowed, and there is a cluster to begin with. */
  predicate CanWrite(v: Shelf, h: nat) {
    && h < |v.files| && !v.files[h].ctl.locked && !v.files[h].readonly
    && v.files[h].ctl.mode == ForWriting && v.files[h].ctl.open
    && v.files[h].ctl.seek <= |v.files[h].content|
    && Begins(|v.files[h].content|, v.files[h].ctl.seek, v.free)
  }

  predicate CanSeek(v: Shelf, h: nat, from: Origin, pos: int) {
    h < |v.files| && !v.files[h].ctl.locked && (from == Beginning ==> 0 < pos < |v.files[h].content|)
  }

  predicate CanDelete(v: Shelf, h: nat) {
    h < |v.files| && !v.files[h].erased && !v.files[h].ctl.locked && !v.files[h].readonly
  }

  /** The shelf with file h locked or unlocked. */
  function WithLock(v: Shelf, h: nat, locked: bool): (v': Shelf)
    ensures |v'.files| == |v.files| && v'.free == v.free
  {
    if h < |v.files|
    then v.(files := v.files[h := v.files[h].(ctl := v.files[h].ctl.(locked := locked))]) else v
  }

  /** How many bytes a write of n bytes transfers. */
  function Count(v: Shelf, h: nat, n: nat): nat
    requires CanWrite(v, h)
  {
    var f := v.files[h];
    Reach(|f.content|, f.ctl.seek, n, v.free + Clusters(|f.content|))
  }

  /** The operation is no write, or one that leaves the file as its descriptor says. */
  predicate Orderly(v: Shelf, op: Op) {
    op.WriteOp? && CanWrite(v, op.h) ==>
      var f := v.files[op.h];
      !f.erased && Suffices(|f.content|, f.ctl.seek, |op.src|, v.free + Clusters(|f.content|))
  }

  function Read(f: File, n: nat): File
    requires f.ctl.seek < |f.content|
  {
    var size, p := |f.content|, f.ctl.seek;
    f.(ctl := f.ctl.(seek := p + ReadCount(size, p, n), eof := f.ctl.eof || (n > size - p && !Overreads(size, p, n))))
  }

  function Written(f: File, src: seq<byte>, n: nat): File
    requires f.ctl.seek <= |f.content| && n <= |src|
  {
    f.(content := Spliced(f.content, f.ctl.seek, src[..n]), ctl := f.ctl.(seek := f.ctl.seek + n))
  }

  /** A write takes no more clusters than are free. */
  lemma GrowthFits(v: Shelf, h: nat, src: seq<byte>)
    requires CanWrite(v, h)
    ensures var f := v.files[h];
            var n := Count(v, h, |src|);
            && n <= |src|
            && Clusters(|f.content|) <= Clusters(|Written(f, src, n).content|) <= v.free + Clusters(|f.content|)
  {
  }

  /** The shelf after an operation. */
  function After(v: Shelf, op: Op): (v': Shelf)
    ensures |v'.files| == |v.files|
  {
    match op
    case CreateOp =>
      var h := FirstErased(v.files, 0);
      if h == |v.files| then v
      else v.(files := v.files[h := File([], false, false, Ctl(0, v.files[h].ctl.eof, true, ForWriting, false))])
    case OpenOp(h, mode) =>
      if CanOpen(v, h, mode)
      then v.(files := v.files[h := v.files[h].(ctl := Ctl(0, false, true, mode, false))]) else v
    case CloseOp(h) =>
      if h < |v.files|
      then v.(files := v.files[h := v.files[h].(ctl := v.files[h].ctl.(open := false, seek := 0))]) else v
    case WriteOp(h, src) =>
      if !CanWrite(v, h) then WithLock(v, h, false)
      else
        GrowthFits(v, h, src);
        var f := Written(v.files[h], src, Count(v, h, |src|));
        Shelf(v.files[h := f], v.free + Clusters(|v.files[h].content|) - Clusters(|f.content|))
    case ReadOp(h, n) =>
      if CanRead(v, h) then v.(files := v.files[h := Read(v.files[h], n)]) else WithLock(v, h, false)
    case SeekOp(h, from, pos) =>
      if CanSeek(v, h, from, pos)
      then var f := v.files[h];
           v.(files := v.files[h := f.(ctl := f.ctl.(seek := Target(from, f.ctl.seek, |f.content|, pos)))])
      else v
    case DeleteOp(h) =>
      if CanDelete(v, h)
      then var ctl := v.files[h].ctl.(locked := true);
           Shelf(v.files[h := File([], true, false, ctl)], v.free + Clusters(|v.files[h].content|))
      else v
    case LockOp(h) => WithLock(v, h, true)
    case UnlockOp(h) => WithLock(v, h, false)
  }

  /** What an operation returns. A read that does not notice the end of the file may return more than the file has. */
  predicate Answers(v: Shelf, op: Op, r: Reply) {
    match op
    case CreateOp =>
      var h := FirstErased(v.files, 0);
      (r.ok <==> h < |v.files|) && (r.ok ==> r.handle == h)
    case OpenOp(h, mode) => r.ok <==> CanOpen(v, h, mode)
    case CloseOp(h) => r.ok <==> h < |v.files|
    case WriteOp(h, src) =>
      if CanWrite(v, h) then r.n == Count(v, h, |src|) && (r.ok <==> r.n == |src|) else !r.ok && r.n == 0
    case ReadOp(h, n) =>
      if !CanRead(v, h) then !r.ok && r.out == []
      else
        var c, p := v.files[h].content, v.files[h].ctl.seek;
        && |r.out| == ReadCount(|c|, p, n)
        && (if Overreads(|c|, p, n) then c[p..] <= r.out && !r.ok
            else p + |r.out| <= |c| && r.out == c[p..p + |r.out|] && (r.ok <==> n > 0))
    case SeekOp(h, from, pos) => r.ok <==> CanSeek(v, h, from, pos)
    case DeleteOp(h) => r.ok <==> CanDelete(v, h)
    case LockOp(h) => r.ok <==> h < |v.files| && !v.files[h].ctl.locked
    case UnlockOp(h) => r.ok <==> h < |v.files| && v.files[h].ctl.locked
  }

  // ---- the file system is such a shelf ----

  function FilesOf(recs: seq<Rec>, fds: seq<Fd>, ctls: seq<Ctl>): (files: seq<File>)
    requires |recs| == |fds| == |ctls|
    ensures |files| == |recs|
    ensures forall h :: 0 <= h < |recs| ==> files[h] == File(recs[h].content, fds[h].erased, fds[h].readonly, ctls[h])
  {
    seq(|recs|, h requires 0 <= h < |recs| => File(recs[h].content, fds[h].erased, fds[h].readonly, ctls[h]))
  }

  ghost function ShelfOf(fs: FileSystem): Shelf
    requires fs.Sized()
    reads fs, fs.tbl, fs.fds, fs.ctls
  {
    Shelf(FilesOf(fs.recs, fs.fds[..], fs.ctls[..]), FreeCount(fs.tbl[..]))
  }

  /** Only file h has changed. */
  lemma OneChanged(r: seq<Rec>, f: seq<Fd>, c: seq<Ctl>, r': seq<Rec>, f': seq<Fd>, c': seq<Ctl>, h: nat)
    requires |r| == |f| == |c| == |r'| == |f'| == |c'| && h < |r|
    requires forall j :: 0 <= j < |r| && j != h ==> r'[j] == r[j] && f'[j] == f[j] && c'[j] == c[j]
    ensures FilesOf(r', f', c') ==
            FilesOf(r, f, c)[h := File(r'[h].content, f'[h].erased, f'[h].readonly, c'[h])]
  {
  }

  /** The sizes in the descriptors are those of the files. */
  lemma SizesRight(fs: FileSystem, h: nat)
    requires fs.Valid() && h < FILES
    ensures fs.fds[h].size == |fs.recs[h].content| && |fs.recs[h].chain| == Clusters(|fs.recs[h].content|)
    ensures fs.fds[h].erased ==> fs.recs[h].content == []
  {
    fs.OneDescribed(h);
  }

  /** The numbers an operation is given fit their types. */
  predicate Typed(op: Op) {
    (op.ReadOp? ==> op.n < WORD32) && (op.SeekOp? ==> -0x8000_0000 <= op.pos < 0x8000_0000)
  }

  /** The file system and the shelf agree on which writes are carried out, and which are orderly. */
  lemma SameWrites(fs: FileSystem, h: nat, src: seq<byte>)
    requires fs.Valid()
    ensures fs.Writes(h) <==> CanWrite(ShelfOf(fs), h)
    ensures fs.Writes(h) ==> (fs.Orderly(h, |src|) <==> Orderly(ShelfOf(fs), WriteOp(h, src)))
  {
    if h < FILES {
      SizesRight(fs, h);
    }
  }

  method PerformWrite(fs: FileSystem, h: nat, src: seq<byte>) returns (r: Reply)
    requires fs.Valid() && Orderly(ShelfOf(fs), WriteOp(h, src))
    modifies fs, fs.tbl, fs.data, fs.fds, fs.ctls
    ensures fs.Valid() && ShelfOf(fs) == After(old(ShelfOf(fs)), WriteOp(h, src))
    ensures Answers(old(ShelfOf(fs)), WriteOp(h, src), r)
  {
    SameWrites(fs, h, src);
    ghost var rs, f, c, v := fs.recs, fs.fds[..], fs.ctls[..], ShelfOf(fs);
    ghost var writes := fs.Writes(h);
    if writes { SizesRight(fs, h); }
    var ok, n := fs.Write(h, src);
    r := Reply(ok, 0, [], n);
    if writes {
      assert Look(0) && Glance(0);
      OneChanged(rs, f, c, fs.recs, fs.fds[..], fs.ctls[..], h);
      SizesRight(fs, h);
    } else if h < FILES {
      OneChanged(rs, f, c, fs.recs, fs.fds[..], fs.ctls[..], h);
    }
  }

  method PerformRead(fs: FileSystem, h: nat, n: nat) returns (r: Reply)
    requires fs.Valid() && n < WORD32
    modifies fs.ctls
    ensures fs.Valid() && ShelfOf(fs) == After(old(ShelfOf(fs)), ReadOp(h, n))
    ensures Answers(old(ShelfOf(fs)), ReadOp(h, n), r)
  {
    if h < FILES { SizesRight(fs, h); }
    ghost var c := fs.ctls[..];
    var ok, out := fs.Read(h, n);
    r := Reply(ok, 0, out, 0);
    if h < FILES {
      OneChanged(fs.recs, fs.fds[..], c, fs.recs, fs.fds[..], fs.ctls[..], h);
    }
  }

  method PerformCreate(fs: FileSystem) returns (r: Reply)
    requires fs.Valid()
    modifies fs.fds, fs.ctls
    ensures fs.Valid() && ShelfOf(fs) == After(old(ShelfOf(fs)), CreateOp)
    ensures Answers(old(ShelfOf(fs)), CreateOp, r)
  {
    ghost var f, c, v := fs.fds[..], fs.ctls[..], ShelfOf(fs);
    ghost var e := FirstErased(v.files, 0);
    assert e < FILES ==> f[e].erased;
    var ok, h := fs.Create();
    r := Reply(ok, h, [], 0);
    if ok {
      assert v.files[h].erased && forall j :: 0 <= j < h ==> !v.files[j].erased;
      OneChanged(fs.recs, f, c, fs.recs, fs.fds[..], fs.ctls[..], h);
    }
  }

  method PerformDelete(fs: FileSystem, h: nat) returns (r: Reply)
    requires fs.Valid()
    modifies fs, fs.tbl, fs.fds, fs.ctls
    ensures fs.Valid() && ShelfOf(fs) == After(old(ShelfOf(fs)), DeleteOp(h))
    ensures Answers(old(ShelfOf(fs)), DeleteOp(h), r)
  {
    if h < FILES { SizesRight(fs, h); }
    ghost var rs, f, c := fs.recs, fs.fds[..], fs.ctls[..];
    var ok := fs.Delete(h);
    r := Reply(ok, 0, [], 0);
    if ok {
      OneChanged(rs, f, c, fs.recs, fs.fds[..], fs.ctls[..], h);
    }
  }

  /** Opening, closing, seeking, locking and unlocking change nothing but the state of one open file. */
  method PerformCtl(fs: FileSystem, op: Op) returns (r: Reply)
    requires fs.Valid() && Typed(op) && !op.CreateOp? && !op.WriteOp? && !op.ReadOp? && !op.DeleteOp?
    modifies fs.ctls
    ensures fs.Valid() && ShelfOf(fs) == After(old(ShelfOf(fs)), op)
    ensures Answers(old(ShelfOf(fs)), op, r)
  {
    if op.h < FILES { SizesRight(fs, op.h); }
    ghost var c := fs.ctls[..];
    var ok: bool;
    match op {
      case OpenOp(h, mode) => ok := fs.Open(h, mode);
      case CloseOp(h) => ok := fs.Close(h);
      case SeekOp(h, from, pos) => ok := fs.Seek(h, from, pos);
      case LockOp(h) => ok := fs.Lock(h);
      case UnlockOp(h) => ok := fs.Unlock(h);
    }
    r := Reply(ok, 0, [], 0);
    if op.h < FILES {
      OneChanged(fs.recs, fs.fds[..], c, fs.recs, fs.fds[..], fs.ctls[..], op.h);
    }
  }

  method Perform(fs: FileSystem, op: Op) returns (r: Reply)
    requires fs.Valid() && Typed(op) && Orderly(ShelfOf(fs), op)
    modifies fs, fs.tbl, fs.data, fs.fds, fs.ctls
    ensures fs.Valid() && ShelfOf(fs) == After(old(ShelfOf(fs)), op)
    ensures Answers(old(ShelfOf(fs)), op, r)
  {
    match op
    case CreateOp => r := PerformCreate(fs);
    case WriteOp(h, src) => r := PerformWrite(fs, h, src);
    case ReadOp(h, n) => r := PerformRead(fs, h, n);
    case DeleteOp(h) => r := PerformDelete(fs, h);
    case _ => r := PerformCtl(fs, op);
  }

  /** The shelf after a sequence of operations. */
  function Play(v: Shelf, ops: seq<Op>): (v': Shelf)
    ensures |v'.files| == |v.files|
  {
    if ops == [] then v else After(Play(v, ops[..|ops| - 1]), ops[|ops| - 1])
  }

  lemma PlayOne(v: Shelf, ops: seq<Op>, i: nat)
    requires i < |ops|
    ensures Play(v, ops[..i + 1]) == After(Play(v, ops[..i]), ops[i])
  {
    assert ops[..i + 1][..i] == ops[..i];
  }

  /** Carry out an operation, unless it is a write that is not orderly. */
  method TryOne(fs: FileSystem, op: Op) returns (stop: bool, r: Reply)
    requires fs.Valid() && Typed(op)
    modifies fs, fs.tbl, fs.data, fs.fds, fs.ctls
    ensures fs.Valid() && stop == !Orderly(old(ShelfOf(fs)), op)
    ensures stop ==> ShelfOf(fs) == old(ShelfOf(fs))
    ensures !stop ==> ShelfOf(fs) == After(old(ShelfOf(fs)), op) && Answers(old(ShelfOf(fs)), op, r)
  {
    stop, r := false, Reply(false, 0, [], 0);
    if op.WriteOp? {
      SameWrites(fs, op.h, op.src);
      stop := fs.Writes(op.h) && !fs.Orderly(op.h, |op.src|);
    }
    if !stop {
      r := Perform(fs, op);
    }
  }

  /** The i-th operation is orderly and answered as the shelf before it demands. */
  predicate Answered(v: Shelf, ops: seq<Op>, replies: seq<Reply>, i: nat)
    requires i < |replies| <= |ops|
  {
    Orderly(Play(v, ops[..i]), ops[i]) && Answers(Play(v, ops[..i]), ops[i], replies[i])
  }

  /** So are all that were carried out. */
  ghost predicate Ran(v: Shelf, ops: seq<Op>, replies: seq<Reply>) {
    |replies| <= |ops| && forall i: nat :: i < |replies| ==> Answered(v, ops, replies, i)
  }

  lemma RanMore(v: Shelf, ops: seq<Op>, replies: seq<Reply>, r: Reply)
    requires Ran(v, ops, replies) && |replies| < |ops|
    requires var w := Play(v, ops[..|replies|]); Orderly(w, ops[|replies|]) && Answers(w, ops[|replies|], r)
    ensures Ran(v, ops, replies + [r])
    ensures Play(v, ops[..|replies| + 1]) == After(Play(v, ops[..|replies|]), ops[|replies|])
  {
    PlayOne(v, ops, |replies|);
    forall i: nat | i < |replies| + 1 ensures Answered(v, ops, replies + [r], i) {
      if i < |replies| {
        assert Answered(v, ops, replies, i);
      }
    }
  }

  /** Carry out a sequence of operations, up to the first write that is not orderly. The file system stays in order, and
      so every cluster is free or in exactly one chain; and it is at each step the shelf that the operations alone lead
      to, and answers as that does. */
  method RunAll(fs: FileSystem, ops: seq<Op>) returns (replies: seq<Reply>)
    requires fs.Valid() && forall i :: 0 <= i < |ops| ==> Typed(ops[i])
    modifies fs, fs.tbl, fs.data, fs.fds, fs.ctls
    ensures fs.Valid() && Ran(old(ShelfOf(fs)), ops, replies)
    ensures ShelfOf(fs) == Play(old(ShelfOf(fs)), ops[..|replies|])
    ensures |replies| < |ops| ==> !Orderly(ShelfOf(fs), ops[|replies|])
  {
    ghost var v := ShelfOf(fs);
    replies := [];
    while |replies| < |ops|
      invariant fs.Valid() && Ran(v, ops, replies) && ShelfOf(fs) == Play(v, ops[..|replies|])
    {
      var stop, r := TryOne(fs, ops[|replies|]);
      if stop {
        return;
      }
      RanMore(v, ops, replies, r);
      replies := replies + [r];
    }
  }

  // ---- no cluster is lost ----

  /** Clusters in use by the first n files. */
  function Total(files: seq<File>, n: nat): nat
    requires n <= |files|
  {
    if n == 0 then 0 else Total(files, n - 1) + Clusters(|files[n - 1].content|)
  }

  /** Unused files have no bytes, and the clusters in use and the free ones make all. */
  predicate Balanced(v: Shelf) {
    && (forall h :: 0 <= h < |v.files| && v.files[h].erased ==> v.files[h].content == [])
    && v.free + Total(v.files, |v.files|) == COUNT
  }

  lemma {:induction false} TotalUpdate(files: seq<File>, n: nat, h: nat, f: File)
    requires n <= |files| && h < |files|
    ensures Total(files[h := f], n) ==
            Total(files, n) + if h < n then Clusters(|f.content|) - Clusters(|files[h].content|) else 0
  {
    if n > 0 {
      TotalUpdate(files, n - 1, h, f);
    }
  }

  lemma AfterBalanced(v: Shelf, op: Op)
    requires Balanced(v) && Orderly(v, op)
    ensures Balanced(After(v, op))
  {
    var h := if op.CreateOp? then FirstErased(v.files, 0) else op.h;
    if h < |v.files| {
      TotalUpdate(v.files, |v.files|, h, After(v, op).files[h]);
      assert v.files[h := v.files[h]] == v.files;
    }
  }

  /** Over any run of orderly operations no cluster is lost and none appears. */
  lemma {:induction false} Conserved(v: Shelf, ops: seq<Op>)
    requires Balanced(v) && forall i: nat :: i < |ops| ==> Orderly(Play(v, ops[..i]), ops[i])
    ensures Balanced(Play(v, ops))
    decreases |ops|
  {
    if ops != [] {
      var n := |ops| - 1;
      var rest := ops[..n];
      forall i: nat | i < n ensures Orderly(Play(v, rest[..i]), rest[i]) {
        assert rest[..i] == ops[..i];
      }
      Conserved(v, rest);
      AfterBalanced(Play(v, rest), ops[n]);
    }
  }

  /** A freshly formatted file system is balanced, and so it stays; and unless it is asked to lock files, only deleted
      ones are locked. */
  method RunFromFormat(ops: seq<Op>) returns (fs: FileSystem, replies: seq<Reply>)
    requires forall i :: 0 <= i < |ops| ==> Typed(ops[i])
    ensures fs.Valid() && |replies| <= |ops| && Balanced(ShelfOf(fs))
    ensures (forall i :: 0 <= i < |ops| ==> !ops[i].LockOp?) ==> LocksDeleted(ShelfOf(fs))
    ensures |replies| < |ops| ==> !Orderly(ShelfOf(fs), ops[|replies|])
  {
    fs := new FileSystem();
    ghost var v := ShelfOf(fs);
    NothingUsed(v.files, |v.files|);
    replies := RunAll(fs, ops);
    ghost var done := ops[..|replies|];
    forall i: nat | i < |done| ensures Orderly(Play(v, done[..i]), done[i]) {
      assert Answered(v, ops, replies, i) && done[..i] == ops[..i];
    }
    Conserved(v, done);
    if forall i :: 0 <= i < |ops| ==> !ops[i].LockOp? {
      LockedDeleted(v, done);
    }
  }

  lemma {:induction false} NothingUsed(files: seq<File>, n: nat)
    requires n <= |files| && forall h :: 0 <= h < |files| ==> files[h].content == []
    ensures Total(files, n) == 0
  {
    if n > 0 {
      NothingUsed(files, n - 1);
    }
  }

  // ---- who is locked ----

  /** Only deleted files are locked. */
  predicate LocksDeleted(v: Shelf) {
    forall h :: 0 <= h < |v.files| && v.files[h].ctl.locked ==> v.files[h].erased
  }

  /** Only a call to lock a file leaves one locked that is not deleted. */
  lemma {:induction false} LockedDeleted(v: Shelf, ops: seq<Op>)
    requires LocksDeleted(v) && forall i :: 0 <= i < |ops| ==> !ops[i].LockOp?
    ensures LocksDeleted(Play(v, ops))
    decreases |ops|
  {
    if ops != [] {
      var n := |ops| - 1;
      LockedDeleted(v, ops[..n]);
      var w := Play(v, ops[..n]);
      forall h | 0 <= h < |w.files| && After(w, ops[n]).files[h].ctl.locked ensures After(w, ops[n]).files[h].erased {
      }
    }
  }

  // ---- what is written is read ----

  /** The operation leaves bytes a .. b-1 of file h alone. */
  predicate Spares(v: Shelf, op: Op, h: nat, a: nat, b: nat)
    requires h < |v.files|
  {
    match op
    case CreateOp => FirstErased(v.files, 0) != h
    case WriteOp(f, src) =>
      f == h && CanWrite(v, h) ==> var p := v.files[h].ctl.seek; p + Count(v, h, |src|) <= a || b <= p
    case DeleteOp(f) => f != h
    case _ => true
  }

  lemma SparedStep(v: Shelf, op: Op, h: nat, a: nat, b: nat)
    requires h < |v.files| && Spares(v, op, h, a, b) && a <= b <= |v.files[h].content|
    ensures var c := After(v, op).files[h].content; b <= |c| && c[a..b] == v.files[h].content[a..b]
  {
    var c, c' := v.files[h].content, After(v, op).files[h].content;
    forall k | a <= k < b ensures k < |c'| && c'[k] == c[k] {
    }
  }

  /** The shelves before and after each of a sequence of operations. */
  function Steps(v: Shelf, ops: seq<Op>): (hist: seq<Shelf>)
    ensures |hist| == |ops| + 1 && forall k :: 0 <= k <= |ops| ==> hist[k] == Play(v, ops[..k])
  {
    seq(|ops| + 1, k requires 0 <= k <= |ops| => Play(v, ops[..k]))
  }

  ghost predicate IsRun(hist: seq<Shelf>, ops: seq<Op>) {
    && |hist| == |ops| + 1
    && forall k :: 0 <= k < |ops| ==> hist[k + 1] == After(hist[k], ops[k])
  }

  lemma StepsRun(v: Shelf, ops: seq<Op>)
    ensures IsRun(Steps(v, ops), ops)
  {
    forall k | 0 <= k < |ops| ensures Steps(v, ops)[k + 1] == After(Steps(v, ops)[k], ops[k]) {
      PlayOne(v, ops, k);
    }
  }

  /** Operations i .. j-1 of a run leave bytes a .. b-1 of file h alone. */
  ghost predicate AllSpare(hist: seq<Shelf>, ops: seq<Op>, i: nat, j: nat, h: nat, a: nat, b: nat)
    requires i <= j <= |ops| && |hist| == |ops| + 1
  {
    forall k: nat :: i <= k < j ==> h < |hist[k].files| && Spares(hist[k], ops[k], h, a, b)
  }

  lemma AllButLast(hist: seq<Shelf>, ops: seq<Op>, i: nat, j: nat, h: nat, a: nat, b: nat)
    requires i < j <= |ops| && |hist| == |ops| + 1 && AllSpare(hist, ops, i, j, h, a, b)
    ensures AllSpare(hist, ops, i, j - 1, h, a, b)
    ensures h < |hist[j - 1].files| && Spares(hist[j - 1], ops[j - 1], h, a, b)
  {
  }

  lemma RunStep(hist: seq<Shelf>, ops: seq<Op>, k: nat, h: nat, a: nat, b: nat)
    requires IsRun(hist, ops) && k < |ops| && h < |hist[k].files| && a <= b <= |hist[k].files[h].content|
    requires Spares(hist[k], ops[k], h, a, b)
    ensures |hist[k + 1].files| == |hist[k].files|
    ensures b <= |hist[k + 1].files[h].content|
            && hist[k + 1].files[h].content[a..b] == hist[k].files[h].content[a..b]
  {
    SparedStep(hist[k], ops[k], h, a, b);
  }

  /** Bytes that no operation of a run touches are the same in the end. */
  lemma {:induction false} Persist(hist: seq<Shelf>, ops: seq<Op>, i: nat, j: nat, h: nat, a: nat, b: nat)
    requires IsRun(hist, ops) && i <= j <= |ops| && h < |hist[i].files| && a <= b <= |hist[i].files[h].content|
    requires AllSpare(hist, ops, i, j, h, a, b)
    ensures |hist[j].files| == |hist[i].files|
    ensures b <= |hist[j].files[h].content| && hist[j].files[h].content[a..b] == hist[i].files[h].content[a..b]
    decreases j - i
  {
    if i < j {
      AllButLast(hist, ops, i, j, h, a, b);
      Persist(hist, ops, i, j - 1, h, a, b);
      RunStep(hist, ops, j - 1, h, a, b);
    }
  }

  /** In any run, a read that begins where an earlier write to the same file began returns the bytes written there, if
      no operation between the two touches them. Where they begin and what they touch follows from the operations. */
  lemma ReadBack(v: Shelf, ops: seq<Op>, i: nat, j: nat, h: nat, src: seq<byte>, r: Reply)
    requires i < j < |ops| && h < |v.files| && ops[i] == WriteOp(h, src) && ops[j] == ReadOp(h, |src|) && src != []
    requires var hist := Steps(v, ops);
             var p := hist[i].files[h].ctl.seek;
             && CanWrite(hist[i], h) && Count(hist[i], h, |src|) == |src|
             && hist[j].files[h].ctl.open && !hist[j].files[h].ctl.locked
             && hist[j].files[h].ctl.seek == p && p + |src| < WORD32
             && AllSpare(hist, ops, i + 1, j, h, p, p + |src|)
             && Answers(hist[j], ops[j], r)
    ensures r.ok && r.out == src
  {
    var hist := Steps(v, ops);
    StepsRun(v, ops);
    ReadBackRun(hist, ops, i, j, h, src, r);
  }

  lemma ReadBackRun(hist: seq<Shelf>, ops: seq<Op>, i: nat, j: nat, h: nat, src: seq<byte>, r: Reply)
    requires IsRun(hist, ops) && i < j < |ops| && ops[i] == WriteOp(h, src) && ops[j] == ReadOp(h, |src|) && src != []
    requires CanWrite(hist[i], h) && Count(hist[i], h, |src|) == |src|
    requires var p := hist[i].files[h].ctl.seek;
             && h < |hist[j].files| && hist[j].files[h].ctl.open && !hist[j].files[h].ctl.locked
             && hist[j].files[h].ctl.seek == p && p + |src| < WORD32
             && AllSpare(hist, ops, i + 1, j, h, p, p + |src|)
             && Answers(hist[j], ops[j], r)
    ensures r.ok && r.out == src
  {
    var p := hist[i].files[h].ctl.seek;
    assert hist[i + 1] == After(hist[i], ops[i]);
    WrittenThere(hist[i], h, src);
    Persist(hist, ops, i + 1, j, h, p, p + |src|);
    ReadThere(hist[j], h, src, r);
  }

  /** A write puts the bytes where it begins. */
  lemma WrittenThere(s: Shelf, h: nat, src: seq<byte>)
    requires CanWrite(s, h) && Count(s, h, |src|) == |src|
    ensures var p, c := s.files[h].ctl.seek, After(s, WriteOp(h, src)).files[h].content;
            p + |src| <= |c| && c[p..p + |src|] == src
  {
    assert src[..|src|] == src;
  }

  /** A read returns the bytes that are where it begins. */
  lemma ReadThere(t: Shelf, h: nat, src: seq<byte>, r: Reply)
    requires h < |t.files| && src != [] && t.files[h].ctl.open && !t.files[h].ctl.locked
    requires Answers(t, ReadOp(h, |src|), r)
    requires var p, c := t.files[h].ctl.seek, t.files[h].content;
             p + |src| <= |c| && p + |src| < WORD32 && c[p..p + |src|] == src
    ensures r.ok && r.out == src
  {
  }

  /** Write, seek back by as many bytes and read: what was written is read. */
  lemma WriteSeekRead(v: Shelf, h: nat, src: seq<byte>, r: Reply)
    requires CanWrite(v, h) && Count(v, h, |src|) == |src| && src != [] && |src| < 0x8000_0000
    requires v.files[h].ctl.seek + |src| < WORD32
    requires var s := After(v, WriteOp(h, src)); Answers(After(s, SeekOp(h, Current, -|src|)), ReadOp(h, |src|), r)
    ensures CanSeek(After(v, WriteOp(h, src)), h, Current, -|src|) && r.ok && r.out == src
  {
    WrittenThere(v, h, src);
    var s := After(v, WriteOp(h, src));
    ReadThere(After(s, SeekOp(h, Current, -|src|)), h, src, r);
  }

  /** The file is not open for writing, or not open. */
  predicate Guarded(v: Shelf, h: nat) {
    h < |v.files| && !v.files[h].erased && (v.files[h].ctl.mode != ForWriting || !v.files[h].ctl.open)
  }

  /** As long as a file is neither opened for writing nor deleted, its bytes stay. */
  lemma {:induction false} GuardedKept(v: Shelf, ops: seq<Op>, h: nat)
    requires Guarded(v, h)
    requires forall i :: 0 <= i < |ops| ==> ops[i] != OpenOp(h, ForWriting) && ops[i] != DeleteOp(h)
    ensures Guarded(Play(v, ops), h) && Play(v, ops).files[h].content == v.files[h].content
    decreases |ops|
  {
    if ops != [] {
      var n := |ops| - 1;
      GuardedKept(v, ops[..n], h);
      assert ops[n] != OpenOp(h, ForWriting) && ops[n] != DeleteOp(h);
    }
  }

  /** Create a file, write to it, close it, open it again and read: whatever else is on the shelf, every step is carried
      out, and what was written is read. */
  lemma Reopened(v: Shelf, src: seq<byte>, r: Reply)
    requires src != [] && |src| < WORD32 && Clusters(|src|) <= v.free && FirstErased(v.files, 0) < |v.files|
    requires Answers(ReopenedShelf(v, src), ReadOp(FirstErased(v.files, 0), |src|), r)
    ensures var h := FirstErased(v.files, 0);
            && Orderly(After(v, CreateOp), WriteOp(h, src)) && Count(After(v, CreateOp), h, |src|) == |src|
            && CanOpen(After(After(After(v, CreateOp), WriteOp(h, src)), CloseOp(h)), h, ForReading)
            && r.ok && r.out == src
  {
    var h := FirstErased(v.files, 0);
    var s := After(v, CreateOp);
    var ctl := Ctl(0, v.files[h].ctl.eof, true, ForWriting, false);
    assert s.files[h] == File([], false, false, ctl) && s.free == v.free;
    assert Goal(0, 0, |src|) == |src| && Reach(0, 0, |src|, v.free + Clusters(0)) == |src|;
    WrittenThere(s, h, src);
    ReadThere(ReopenedShelf(v, src), h, src, r);
  }

  function ReopenedShelf(v: Shelf, src: seq<byte>): Shelf {
    var h := FirstErased(v.files, 0);
    After(After(After(After(v, CreateOp), WriteOp(h, src)), CloseOp(h)), OpenOp(h, ForReading))
  }

  // ---- reads and writes that go wrong ----

  /** Format, create a file and write n bytes to it. */
  method Filled(n: nat) returns (fs: FileSystem, h: nat)
    requires 0 < n <= 2 * CS
    ensures fresh(fs) && fresh(fs.tbl) && fresh(fs.data) && fresh(fs.fds) && fresh(fs.ctls)
    ensures fs.Valid() && fs.Writable(h) && fs.fds[h].size == fs.ctls[h].seek == n && !fs.fds[h].erased
    ensures FreeCount(fs.tbl[..]) == COUNT - Clusters(n)
  {
    fs := new FileSystem();
    assert fs.fds[0].erased;
    var ok: bool, wrote: nat;
    ok, h := fs.Create();
    fs.OneDescribed(h);
    assert Goal(0, 0, n) == n && Clusters(0) == 0 && 0 < Clusters(n) <= 2 && Reach(0, 0, n, COUNT) == n;
    ok, wrote := fs.Write(h, seq(n, _ => 1));
    assert Look(0) && Glance(0);
    fs.OneDescribed(h);
  }

  /** A read that goes beyond the end of the file: one byte is left, and all of the cluster is returned. */
  method ReadsBeyond() returns (fs: FileSystem, h: nat, ok: bool, out: seq<byte>)
    ensures fs.Valid() && h < FILES && |fs.recs[h].content| == CS + 1 && !ok && |out| == CS
  {
    fs, h := Filled(CS + 1);
    ok := fs.Seek(h, Current, -1);
    ok, out := fs.Read(h, WORD32 - CS);
  }

  /** A write of no bytes to an empty file: it takes a cluster, and the descriptor still says that there is none. */
  method WritesNothing() returns (fs: FileSystem, h: nat, ok: bool, wrote: nat)
    ensures fs.Core() && h < FILES && ok && wrote == 0 && fs.fds[h].size == 0 && |fs.recs[h].chain| == 1 && !fs.Valid()
  {
    fs := new FileSystem();
    assert fs.fds[0].erased;
    ok, h := fs.Create();
    fs.OneDescribed(h);
    assert Goal(0, 0, 0) == 0 && Reach(0, 0, 0, COUNT) == 0;
    ok, wrote := fs.Write(h, []);
    assert Look(0) && Glance(0);
  }

  /** A write that is not completed although clusters are free: it overwrites a file from before its end to beyond it,
      and the file fills its last cluster. */
  method OverwriteStops() returns (fs: FileSystem, ok: bool, wrote: nat)
    ensures fs.Valid() && !ok && wrote == CS && FreeCount(fs.tbl[..]) > 0
  {
    var h: nat;
    fs, h := Filled(CS);
    ok := fs.Seek(h, Current, -CS);
    fs.OneDescribed(h);
    assert Goal(CS, 0, CS + 1) == CS && Reach(CS, 0, CS + 1, COUNT) == CS && Clusters(CS) == 1;
    ok, wrote := fs.Write(h, seq(CS + 1, _ => 2));
    assert Look(0) && Glance(0);
    fs.OneDescribed(h);
  }

  /** A write that runs out of clusters: all of them are filled, but the descriptor still says that the file is empty. */
  method OutOfClusters() returns (fs: FileSystem, h: nat, ok: bool, wrote: nat)
    ensures fs.Core() && h < FILES && !ok && wrote == COUNT * CS == |fs.recs[h].content|
    ensures fs.fds[h].size == 0 && !fs.Valid()
  {
    fs := new FileSystem();
    assert fs.fds[0].erased;
    ok, h := fs.Create();
    fs.OneDescribed(h);
    assert Goal(0, 0, COUNT * CS + 1) == COUNT * CS + 1 && Reach(0, 0, COUNT * CS + 1, COUNT) == COUNT * CS;
    ok, wrote := fs.Write(h, seq(COUNT * CS + 1, _ => 1));
    assert Look(0) && Glance(0);
  }

  /** Two writes through the handle of a deleted file: the first fails, as the file is locked, but unlocks it; the
      second takes a cluster that no descriptor leads to. */
  method StaleHandle() returns (fs: FileSystem, h: nat, ok1: bool, wrote1: nat, ok: bool, wrote: nat)
    ensures !ok1 && wrote1 == 0
    ensures fs.Core() && h < FILES && ok && wrote == 1 && fs.fds[h].erased && fs.recs[h].chain != [] && !fs.Valid()
  {
    fs := new FileSystem();
    assert fs.fds[0].erased;
    ok, h := fs.Create();
    fs.OneDescribed(h);
    ok := fs.Delete(h);
    ok1, wrote1 := fs.Write(h, [1]);
    fs.OneDescribed(h);
    assert Goal(0, 0, 1) == 1 && Reach(0, 0, 1, COUNT) == 1;
    ok, wrote := fs.Write(h, [1]);
    assert Look(0) && Glance(0);
  }
}
