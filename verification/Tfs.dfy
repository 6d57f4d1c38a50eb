/**
 The tiny file system: the cluster table, the data area and the file descriptors, all changed in place.
 Files are named by their handles.
 */
module Tfs {
  import opened Hiding
  import opened ByteSeqs
  import opened TfsState

  datatype Mode = ForReading | ForWriting

  datatype Origin = Beginning | Current | FromEnd

  /** State of an open file. A locked file is refused by every call that locks it first. */
  datatype Ctl = Ctl(seek: nat, eof: bool, open: bool, mode: Mode, locked: bool)

  class FileSystem {
    const tbl: array<nat>
    const data: array<byte>
    const fds: array<Fd>
    const ctls: array<Ctl>
    ghost var recs: seq<Rec>

    ghost predicate Sized()
      reads this
    {
      tbl.Length == COUNT && data.Length == COUNT * CS && fds.Length == FILES && ctls.Length == FILES && |recs| == FILES
    }

    /** Table, data and files fit together, whatever the descriptors say. */
    ghost predicate Core()
      reads this, tbl, data
    {
      Sized() && forall k {:trigger Unfold(k)} :: Unfold(k) ==> Sound(tbl[..], data[..], recs)
    }

    /** Every file is what its descriptor says. */
    ghost predicate Valid()
      reads this, tbl, data, fds, ctls
    {
      Core() && Others(FILES)
    }

    /** Every file but h is what its descriptor says. */
    ghost predicate Others(h: nat)
      requires Sized()
      reads this, tbl, fds
    {
      forall k {:trigger Unfold(k)} :: Unfold(k) ==> Described(fds[..], recs, tbl[..], h)
    }

    /** Format: no files, and all clusters are free. */
    constructor ()
      ensures Valid()
      ensures forall h :: 0 <= h < FILES ==>
                fds[h] == Fd(0, 0, true, false) && ctls[h] == Ctl(0, false, false, ForReading, false)
                && recs[h] == Rec([], [])
      ensures fresh(tbl) && fresh(data) && fresh(fds) && fresh(ctls) && FreeCount(tbl[..]) == COUNT
    {
      tbl := new nat[COUNT](_ => FREE);
      data := new byte[COUNT * CS](_ => 0);
      fds := new Fd[FILES](_ => Fd(0, 0, true, false));
      ctls := new Ctl[FILES](_ => Ctl(0, false, false, ForReading, false));
      recs := seq(FILES, _ => Rec([], []));
      new;
      AllFree(tbl[..], |tbl[..]|);
    }

    // ---- clusters ----

    /** The cluster behind current, if there is one. */
    method GetNext(current: nat) returns (ok: bool, next: nat)
      requires tbl.Length == COUNT
      ensures ok <==> current < COUNT && tbl[current] < COUNT
      ensures ok ==> next == tbl[current]
    {
      ok, next := false, 0;
      if current < COUNT {
        next := tbl[current];
        ok := next < COUNT;
      }
    }

    /** Reserve the first free cluster. */
    method Reserve() returns (ok: bool, c: nat)
      requires tbl.Length == COUNT
      modifies tbl
      ensures ok <==> exists d :: 0 <= d < COUNT && old(tbl[d]) == FREE
      ensures !ok ==> tbl[..] == old(tbl[..])
      ensures ok ==> c < COUNT && old(tbl[c]) == FREE && (forall d :: 0 <= d < c ==> old(tbl[d]) != FREE)
      ensures ok ==> tbl[..] == old(tbl[..])[c := RESERVED]
    {
      ok, c := false, 0;
      while c < COUNT
        invariant c <= COUNT && !ok && tbl[..] == old(tbl[..])
        invariant forall d :: 0 <= d < c ==> tbl[d] != FREE
      {
        if tbl[c] == FREE {
          tbl[c] := RESERVED;
          ok := true;
          return;
        }
        c := c + 1;
      }
    }

    /** The cluster that holds the byte at the seek pointer of a file, or its last one if the pointer is at the end. */
    method SeekCluster(h: nat) returns (ok: bool, cluster: nat)
      requires Core() && h < FILES && !fds[h].erased && recs[h].chain != [] && fds[h].first == recs[h].chain[0]
      requires ctls[h].seek <= |recs[h].chain| * CS
      ensures ok
      ensures cluster == if ctls[h].seek / CS < |recs[h].chain| then recs[h].chain[ctls[h].seek / CS]
                         else recs[h].chain[|recs[h].chain| - 1]
    {
      ghost var ch := recs[h].chain;
      assert Chain(tbl[..], ch) by { assert Unfold(0); assert RecOk(tbl[..], data[..], recs[h]); }
      var num, counter, next, more := ctls[h].seek / CS, 0, fds[h].first, true;
      cluster := next;
      while more && counter != num
        invariant counter <= num && cluster == ch[if counter < |ch| then counter else |ch| - 1]
        invariant counter <= |ch| && (more <==> counter < |ch|)
        decreases num - counter
      {
        assert Link(tbl[..], ch, counter) && (counter + 1 < |ch| ==> Link(tbl[..], ch, counter + 1));
        more, next := GetNext(cluster);
        counter := counter + 1;
        if more {
          cluster := next;
        }
      }
      ok := counter == num;
    }

    // ---- writing ----

    /** Put a chunk into the cluster that holds the byte at the seek pointer, and move the pointer behind it. */
    method PutChunk(h: nat, cluster: nat, chunk: seq<byte>)
      requires Core() && h < FILES && ctls[h].seek <= |recs[h].content|
      requires ctls[h].seek / CS < |recs[h].chain| && cluster == recs[h].chain[ctls[h].seek / CS]
      requires ctls[h].seek % CS + |chunk| <= CS
      modifies data, ctls, this`recs
      ensures Core()
      ensures Only(h, old(recs), fds[..], old(ctls[..])) && recs[h].chain == old(recs)[h].chain
      ensures Wrote(old(recs)[h].content, old(ctls[h]).seek, chunk, recs[h].content)
      ensures ctls[h].seek == old(ctls[h]).seek + |chunk|
              && |recs[h].content| == Max(|old(recs)[h].content|, ctls[h].seek)
    {
      ghost var p := ctls[h].seek;
      assert Sound(tbl[..], data[..], recs) by { assert Unfold(0); }
      ChunkSound(tbl[..], data[..], recs, h, p, chunk);
      var at := cluster * CS + ctls[h].seek % CS;
      CopyInto(data, at, chunk);
      ctls[h] := ctls[h].(seek := ctls[h].seek + |chunk|);
      recs := recs[h := recs[h].(content := Spliced(recs[h].content, p, chunk))];
    }

    /** Link a cluster behind another one. */
    method LinkCluster(current: nat, to: nat)
      requires tbl.Length == COUNT
      modifies tbl
      ensures tbl[..] == if current < COUNT && to < COUNT then old(tbl[..])[current := to] else old(tbl[..])
    {
      if current < COUNT && to < COUNT {
        tbl[current] := to;
      }
    }

    /** Put a free cluster behind the chain of a file; prev is the last one of the chain, or no cluster. */
    method Grow(h: nat, prev: nat) returns (ok: bool, c: nat)
      requires Core() && h < FILES
               && if recs[h].chain == [] then prev >= COUNT else prev == recs[h].chain[|recs[h].chain| - 1]
      requires Others(h)
      modifies tbl, this`recs
      ensures Core() && Others(h)
      ensures ok <==> old(FreeCount(tbl[..])) > 0
      ensures !ok ==> tbl[..] == old(tbl[..]) && recs == old(recs)
      ensures ok ==> c < COUNT && FreeCount(tbl[..]) == old(FreeCount(tbl[..])) - 1
      ensures ok ==> recs == old(recs)[h := old(recs)[h].(chain := old(recs)[h].chain + [c])]
    {
      ghost var t := tbl[..];
      assert Sound(t, data[..], recs) && Described(fds[..], recs, t, h) by { assert Unfold(0); }
      FreesNone(t, |t|);
      ok, c := Reserve();
      if ok {
        GrownOk(fds[..], t, data[..], recs, h, prev, c);
        LinkCluster(prev, c);
        assert tbl[..] == Extended(t, recs[h].chain, c);
        recs := recs[h := recs[h].(chain := recs[h].chain + [c])];
      }
    }

    /** Mark the last cluster of the chain of a file as such. */
    method MarkLast(h: nat, cluster: nat)
      requires Core() && h < FILES && recs[h].chain != [] && cluster == recs[h].chain[|recs[h].chain| - 1] && Others(h)
      modifies tbl
      ensures Core() && Others(h) && cluster < COUNT && tbl[..] == old(tbl[..])[cluster := LAST]
      ensures FreeCount(tbl[..]) == old(FreeCount(tbl[..]))
    {
      ghost var t := tbl[..];
      assert Sound(t, data[..], recs) && Described(fds[..], recs, t, h) by { assert Unfold(0); }
      MarkSound(t, data[..], recs, h);
      MarkCount(t, data[..], recs, h, cluster, LAST);
      tbl[cluster] := LAST;
      DescribedKept(fds[..], data[..], recs, recs, t, tbl[..], h, cluster, COUNT);
    }

    /** In the middle of a write to file h, whose descriptor still says size: the bytes up to pos are in place, and there
        is a cluster for the byte at pos. */
    ghost predicate Writing(h: nat, size: nat, pos: nat)
      reads this, tbl, data, fds, ctls
    {
      && Core() && h < FILES && Others(h)
      && fds[h].size == size && ctls[h].seek == pos
      && |recs[h].content| == Max(size, pos)
      && |recs[h].chain| == Max(Clusters(size), pos / CS + 1)
      && (|recs[h].chain| == Clusters(size) ==> Ended(h))
    }

    ghost predicate Ended(h: nat)
      requires Sized() && h < FILES
      reads this, tbl
    {
      var ch := recs[h].chain;
      ch != [] ==> ch[|ch| - 1] < COUNT && tbl[ch[|ch| - 1]] == LAST
    }

    /** The chunk that filled the file up to pos was the last one: note the new size and end the chain. */
    method Finish(h: nat, cluster: nat, ghost p: nat)
      requires Core() && h < FILES && Others(h) && p < ctls[h].seek <= p / CS * CS + CS
      requires |recs[h].content| == Max(fds[h].size, ctls[h].seek)
      requires |recs[h].chain| == Max(Clusters(fds[h].size), p / CS + 1) && cluster == recs[h].chain[p / CS]
      requires |recs[h].chain| == Clusters(fds[h].size) ==> Ended(h)
      modifies tbl, fds
      ensures Core() && Others(h) && Ended(h)
      ensures fds[..] == old(fds[..])[h := old(fds[h]).(size := |recs[h].content|)]
              && |recs[h].chain| == Clusters(fds[h].size)
      ensures FreeCount(tbl[..]) == old(FreeCount(tbl[..]))
    {
      ChunkEnds(p, ctls[h].seek - p);
      if ctls[h].seek > fds[h].size {
        MarkLast(h, cluster);
        fds[h] := fds[h].(size := ctls[h].seek);
      }
    }

    /** Link a cluster of file h to the next one, as it is already. */
    method Relink(h: nat, cluster: nat, next: nat, ghost i: nat)
      requires Core() && h < FILES && Others(h) && i + 1 < |recs[h].chain|
      requires cluster == recs[h].chain[i] && next == recs[h].chain[i + 1]
      modifies tbl
      ensures Core() && Others(h) && tbl[..] == old(tbl[..])
    {
      NextOf(h, i);
      LinkCluster(cluster, next);
      assert tbl[..] == old(tbl[..]);
    }

    /** More bytes follow: go on to the next cluster, a new one behind the end of the file. At the very end of the file
        there is no next cluster, and without a free cluster there is no new one: then the write is over. */
    method Onward(h: nat, cluster: nat, ghost size: nat, ghost p: nat) returns (more: bool, next: nat)
      requires Core() && h < FILES && Others(h) && fds[h].size == size
      requires ctls[h].seek == p / CS * CS + CS && |recs[h].content| == Max(size, ctls[h].seek)
      requires |recs[h].chain| == Max(Clusters(size), p / CS + 1) && cluster == recs[h].chain[p / CS]
      requires |recs[h].chain| == Clusters(size) ==> Ended(h)
      modifies tbl, this`recs
      ensures more <==> ctls[h].seek != size && (ctls[h].seek > size ==> old(FreeCount(tbl[..])) > 0)
      ensures more ==> Writing(h, size, ctls[h].seek) && next == recs[h].chain[ctls[h].seek / CS]
      ensures !more ==> recs == old(recs) && Core() && Others(h) && Ended(h)
      ensures recs == old(recs)[h := recs[h]] && recs[h].content == old(recs)[h].content
              && old(recs)[h].chain <= recs[h].chain
      ensures FreeCount(tbl[..]) + |recs[h].chain| == old(FreeCount(tbl[..]) + |recs[h].chain|)
    {
      if ctls[h].seek > fds[h].size {
        more, next := Grow(h, cluster);
      } else {
        NextOf(h, p / CS);
        more, next := GetNext(cluster);
      }
      if more {
        Relink(h, cluster, next, p / CS);
      } else {
        MarkLast(h, cluster);
      }
    }

    lemma NextOf(h: nat, i: nat)
      requires Core() && h < FILES && i < |recs[h].chain|
      ensures var ch := recs[h].chain;
              ch[i] < COUNT && if i + 1 < |ch| then tbl[ch[i]] == ch[i + 1] < COUNT else COUNT <= tbl[ch[i]] < FREE
    {
      assert Unfold(0);
      NextInChain(tbl[..], data[..], recs, h, i);
    }

    /** The file h is complete again: its chain ends, and its descriptor knows its size. */
    ghost predicate Whole(h: nat)
      reads this, tbl, data, fds
    {
      Core() && h < FILES && Others(h) && Complete(h)
    }

    ghost predicate Complete(h: nat)
      requires Sized() && h < FILES
      reads this, tbl, fds
    {
      fds[h].size == |recs[h].content| && |recs[h].chain| == Clusters(fds[h].size) && Ended(h)
    }

    /** A write to file h has used up all clusters: they are full, but the descriptor still has the old size. */
    ghost predicate Spent(h: nat, size: nat)
      reads this, tbl, data, fds, ctls
    {
      && Core() && h < FILES && Others(h) && Ended(h) && FreeCount(tbl[..]) == 0
      && fds[h].size == size < ctls[h].seek == |recs[h].content| == |recs[h].chain| * CS
    }

    /** Of the files, only h has changed, and of its descriptor and state only the size and the seek pointer. */
    ghost predicate Only(h: nat, r: seq<Rec>, f: seq<Fd>, c: seq<Ctl>)
      reads this, fds, ctls
    {
      && Sized() && h < FILES && |r| == |f| == |c| == FILES
      && (forall j :: 0 <= j < FILES && j != h ==> recs[j] == r[j] && fds[j] == f[j] && ctls[j] == c[j])
      && fds[h] == f[h].(size := fds[h].size) && ctls[h] == c[h].(seek := ctls[h].seek)
      && r[h].chain <= recs[h].chain
    }

    /** Of the files, only h has changed, and of its descriptor and state only size, first cluster and seek pointer. */
    ghost predicate Changed(h: nat, r: seq<Rec>, f: seq<Fd>, c: seq<Ctl>)
      reads this, fds, ctls
    {
      && Sized() && h < FILES && |r| == |f| == |c| == FILES
      && (forall j :: 0 <= j < FILES && j != h ==> recs[j] == r[j] && fds[j] == f[j] && ctls[j] == c[j])
      && fds[h] == f[h].(size := fds[h].size, first := fds[h].first) && ctls[h] == c[h].(seek := ctls[h].seek)
      && r[h].chain <= recs[h].chain
    }

    /** After a chunk that began at p: finish, or go on to the next cluster. */
    method AfterChunk(h: nat, cluster: nat, last: bool, ghost size: nat, ghost p: nat) returns (more: bool, next: nat)
      requires Core() && h < FILES && Others(h) && fds[h].size == size
      requires p < ctls[h].seek <= p / CS * CS + CS && (!last ==> ctls[h].seek == p / CS * CS + CS)
      requires |recs[h].content| == Max(size, ctls[h].seek)
      requires |recs[h].chain| == Max(Clusters(size), p / CS + 1) && cluster == recs[h].chain[p / CS]
      requires |recs[h].chain| == Clusters(size) ==> Ended(h)
      modifies tbl, fds, this`recs
      ensures Only(h, old(recs), old(fds[..]), ctls[..]) && recs[h].content == old(recs)[h].content
      ensures more ==> !last && ctls[h].seek != size
      ensures more ==> Writing(h, size, ctls[h].seek) && next == recs[h].chain[ctls[h].seek / CS]
      ensures FreeCount(tbl[..]) + |recs[h].chain| == old(FreeCount(tbl[..]) + |recs[h].chain|)
      ensures !more && (last || ctls[h].seek == size) ==> Whole(h)
      ensures !more && !last && ctls[h].seek != size ==>
                Spent(h, size) && ctls[h].seek > size && |recs[h].chain| == p / CS + 1
    {
      if last {
        Finish(h, cluster, p);
        more, next := false, 0;
      } else {
        ChunkEnds(p, ctls[h].seek - p);
        more, next := Onward(h, cluster, size, p);
      }
    }

    /** A write to file h is about to go on in the cluster; the file has, and could get, that many clusters. */
    ghost predicate Poised(h: nat, size: nat, cluster: nat, clusters: nat)
      reads this, tbl, data, fds, ctls
    {
      && Sized() && h < FILES
      && forall k {:trigger Look(k)} :: Look(k) ==>
           && Writing(h, size, ctls[h].seek) && cluster == recs[h].chain[ctls[h].seek / CS]
           && FreeCount(tbl[..]) + |recs[h].chain| == clusters
    }

    /** A write to file h is over: the file is complete, or the clusters are used up. */
    ghost predicate Rests(h: nat, complete: bool, size: nat, clusters: nat)
      reads this, tbl, data, fds, ctls
    {
      && Sized() && h < FILES
      && forall k {:trigger Look(k)} :: Look(k) ==>
           (if complete then Whole(h) else Spent(h, size)) && FreeCount(tbl[..]) + |recs[h].chain| == clusters
    }

    /** One round of writing: a chunk into the current cluster, and on to the next one if bytes are left. */
    method WriteRound(h: nat, cluster: nat, rest: seq<byte>, ghost size: nat, ghost clusters: nat)
      returns (n: nat, more: bool, next: nat)
      requires Poised(h, size, cluster, clusters) && rest != []
      modifies tbl, data, fds, ctls, this`recs
      ensures 0 < n <= |rest| && Only(h, old(recs), old(fds[..]), old(ctls[..]))
      ensures ctls[h].seek == old(ctls[h]).seek + n
      ensures Wrote(old(recs)[h].content, old(ctls[h]).seek, rest[..n], recs[h].content)
      ensures n <= Reach(size, old(ctls[h]).seek, |rest|, clusters)
      ensures more ==>
                && n < |rest| && Poised(h, size, next, clusters)
                && Reach(size, ctls[h].seek, |rest| - n, clusters) == Reach(size, old(ctls[h]).seek, |rest|, clusters) - n
                && Goal(size, ctls[h].seek, |rest| - n) == Goal(size, old(ctls[h]).seek, |rest|) - n
      ensures !more ==>
                && n == Reach(size, old(ctls[h]).seek, |rest|, clusters)
                && Rests(h, n == Goal(size, old(ctls[h]).seek, |rest|), size, clusters)
    {
      assert Look(0);
      ghost var p := ctls[h].seek;
      n := CS - ctls[h].seek % CS;
      if |rest| < n {
        n := |rest|;
      }
      GoalStep(size, p, |rest|, n);
      ReachStep(size, p, |rest|, n, clusters);
      PutChunk(h, cluster, rest[..n]);
      more, next := AfterChunk(h, cluster, n == |rest|, size, p);
    }

    /** Write as much of src as can be written. */
    method WriteRounds(h: nat, start: nat, src: seq<byte>, ghost size: nat, ghost clusters: nat)
      returns (rest: seq<byte>, ghost done: seq<byte>)
      requires Poised(h, size, start, clusters) && src != [] && ctls[h].seek <= |recs[h].content|
      modifies tbl, data, fds, ctls, this`recs
      ensures Only(h, old(recs), old(fds[..]), old(ctls[..]))
      ensures done + rest == src && |done| == Reach(size, old(ctls[h]).seek, |src|, clusters)
              && ctls[h].seek == old(ctls[h]).seek + |done|
      ensures Wrote(old(recs)[h].content, old(ctls[h]).seek, done, recs[h].content)
      ensures Rests(h, |done| == Goal(size, old(ctls[h]).seek, |src|), size, clusters)
    {
      ghost var base, before := ctls[h].seek, recs[h].content;
      ghost var reach, goal := Reach(size, base, |src|, clusters), Goal(size, base, |src|);
      ghost var r, f, c, left, togo := recs, fds[..], ctls[..], reach, goal;
      rest, done := src, [];
      var cluster, more := start, true;
      WroteNothing(before, base);
      while more
        invariant Only(h, r, f, c) && ctls[h].seek == base + |done|
        invariant done + rest == src && Wrote(before, base, done, recs[h].content)
        invariant left + |done| == reach && togo + |done| == goal
        invariant more ==> rest != [] && Poised(h, size, cluster, clusters)
        invariant more ==> left == Reach(size, ctls[h].seek, |rest|, clusters)
        invariant more ==> togo == Goal(size, ctls[h].seek, |rest|)
        invariant !more ==> left == 0 && Rests(h, togo == 0, size, clusters)
        decreases more, |rest|
      {
        ghost var c1 := recs[h].content;
        var n: nat;
        n, more, cluster := WriteRound(h, cluster, rest, size, clusters);
        ghost var d := WroteStep(before, base, done, c1, rest, n, recs[h].content);
        done, rest, left, togo := d, rest[n..], left - n, togo - n;
      }
    }

    /** What the descriptor of file h says, and that the others are right as well. */
    lemma OneDescribed(h: nat)
      requires Valid() && h < FILES
      ensures Describes(fds[h], recs[h], tbl[..]) && Others(h)
      ensures fds[h].size == |recs[h].content| && |recs[h].chain| == Clusters(fds[h].size)
    {
      assert Unfold(0);
    }

    lemma AllDescribed(h: nat)
      requires Core() && h < FILES && Others(h) && Describes(fds[h], recs[h], tbl[..])
      ensures Valid()
    {
      forall k | Unfold(k) ensures Described(fds[..], recs, tbl[..], FILES) {
        assert Described(fds[..], recs, tbl[..], h);
        forall j | 0 <= j < FILES ensures Describes(fds[j], recs[j], tbl[..]) {
        }
      }
    }

    /** The file system is in order exactly if file h, which has clusters, exists and is complete. */
    lemma Judged(h: nat)
      requires Core() && h < FILES && Others(h) && recs[h].chain != []
      requires !fds[h].erased ==> fds[h].first == recs[h].chain[0]
      ensures Valid() <==> !fds[h].erased && Complete(h)
    {
      if !fds[h].erased && Complete(h) {
        AllDescribed(h);
      } else {
        assert !Describes(fds[h], recs[h], tbl[..]);
        assert !Described(fds[..], recs, tbl[..], FILES);
        assert Unfold(0);
      }
    }

    /** Byte i of a file is byte i mod 32 of the cluster that is i div 32 links behind the first one in its descriptor. */
    lemma ByteOnDevice(h: nat, i: nat)
      requires Valid() && h < FILES && i < |recs[h].content|
      ensures !fds[h].erased && i < fds[h].size
      ensures var c := Follow(tbl[..], fds[h].first, i / 32);
              c < COUNT && c * 32 + i % 32 < data.Length && data[c * 32 + i % 32] == recs[h].content[i]
    {
      OneDescribed(h);
      ClustersFit(|recs[h].content|);
      var ch := recs[h].chain;
      assert Chain(tbl[..], ch) && ByteAt(data[..], ch, recs[h].content, i) by {
        assert Unfold(0);
        assert RecOk(tbl[..], data[..], recs[h]);
      }
      ChainFollows(tbl[..], ch, i / CS);
    }

    /** What happens to file h alone leaves the other files described. */
    lemma OthersKept(h: nat, f: seq<Fd>, r: seq<Rec>)
      requires Sized() && h < FILES && |f| == |r| == FILES
      requires forall j :: 0 <= j < FILES && j != h ==> fds[j] == f[j] && recs[j] == r[j]
      requires forall k {:trigger Unfold(k)} :: Unfold(k) ==> Described(f, r, tbl[..], h)
      ensures Others(h)
    {
      forall k | Unfold(k) ensures Described(fds[..], recs, tbl[..], h) {
        assert Described(f, r, tbl[..], h);
      }
    }

    /** A new cluster for the byte at the seek pointer, which is at the end of a full chain. */
    method BeginCluster(h: nat) returns (ok: bool, first: nat)
      requires Core() && h < FILES && Others(h) && Describes(fds[h], recs[h], tbl[..])
      requires NeedsCluster(fds[h].size, ctls[h].seek)
      modifies tbl, this`recs
      ensures Core() && Others(h)
      ensures ok <==> old(FreeCount(tbl[..])) > 0
      ensures !ok ==> Valid() && recs == old(recs) && tbl[..] == old(tbl[..])
      ensures ok ==> FreeCount(tbl[..]) == old(FreeCount(tbl[..])) - 1
      ensures ok ==> recs == old(recs)[h := old(recs)[h].(chain := old(recs)[h].chain + [first])]
    {
      var last := EMPTY;
      if ctls[h].seek > 0 {
        ok, last := SeekCluster(h);
      }
      ok, first := Grow(h, last);
      if !ok {
        AllDescribed(h);
      }
    }

    /** A write to file h is about to start in cluster first; r, f and c tell what there was before, and clusters how many
        clusters the file had or could get. */
    ghost predicate Begun(h: nat, first: nat, r: seq<Rec>, f: seq<Fd>, c: seq<Ctl>, clusters: nat)
      reads this, tbl, data, fds, ctls
    {
      && Sized() && h < FILES && |r| == |f| == |c| == FILES
      && forall k {:trigger Look(k)} :: Look(k) ==>
           && f == fds[..] && c == ctls[..] && recs == r[h := recs[h]]
           && recs[h].content == r[h].content && r[h].chain <= recs[h].chain && |r[h].chain| == Clusters(f[h].size)
           && Writing(h, f[h].size, c[h].seek) && c[h].seek <= f[h].size && first == recs[h].chain[c[h].seek / CS]
           && FreeCount(tbl[..]) + |recs[h].chain| == clusters
           && (f[h].erased || f[h].first == if r[h].chain == [] then EMPTY else r[h].chain[0])
           && (r[h].chain != [] ==> r[h].chain[0] < COUNT)
    }

    /** The cluster for the byte at the seek pointer: a new one if the pointer is at the end of a full chain. */
    method Begin(h: nat) returns (ok: bool, first: nat)
      requires Valid() && h < FILES && ctls[h].seek <= fds[h].size
      modifies tbl, this`recs
      ensures Core() && (ok <==> Begins(fds[h].size, ctls[h].seek, old(FreeCount(tbl[..]))))
      ensures !ok ==> Valid() && recs == old(recs) && tbl[..] == old(tbl[..])
      ensures ok ==> Begun(h, first, old(recs), fds[..], ctls[..], old(FreeCount(tbl[..])) + Clusters(fds[h].size))
    {
      OneDescribed(h);
      if recs[h].chain != [] { NextOf(h, 0); }
      if ctls[h].seek == fds[h].size && ctls[h].seek % CS == 0 {
        ok, first := BeginCluster(h);
      } else {
        ok, first := SeekCluster(h);
      }
    }

    // ---- locks ----

    /** Lock a file that is not locked. */
    method Lock(h: nat) returns (ok: bool)
      requires Valid()
      modifies ctls
      ensures Valid() && (ok <==> h < FILES && !old(ctls[..])[h].locked)
      ensures ctls[..] == if ok then old(ctls[..])[h := old(ctls[..])[h].(locked := true)] else old(ctls[..])
    {
      ok := h < FILES && !ctls[h].locked;
      if ok {
        ctls[h] := ctls[h].(locked := true);
      }
    }

    /** Unlock a file that is locked. */
    method Unlock(h: nat) returns (ok: bool)
      requires Valid()
      modifies ctls
      ensures Valid() && (ok <==> h < FILES && old(ctls[..])[h].locked)
      ensures ctls[..] == Unlocked(old(ctls[..]), h)
    {
      ok := h < FILES && ctls[h].locked;
      if ok {
        ctls[h] := ctls[h].(locked := false);
      }
    }

    /** A file may be written at its seek pointer. */
    predicate Writable(h: nat)
      requires fds.Length == ctls.Length == FILES
      reads fds, ctls
    {
      && h < FILES && !ctls[h].locked && !fds[h].readonly && ctls[h].mode == ForWriting && ctls[h].open
      && ctls[h].seek <= fds[h].size
    }

    /** Note the first cluster of a file that had none. */
    method SetFirst(h: nat, first: nat)
      requires Core() && h < FILES && Others(h)
      modifies fds
      ensures Core() && Others(h)
      ensures fds[..] == old(fds[..])
                [h := if old(fds[h]).first >= COUNT then old(fds[h]).(first := first) else old(fds[h])]
    {
      if fds[h].first >= COUNT {
        fds[h] := fds[h].(first := first);
      }
      OthersKept(h, old(fds[..]), recs);
    }

    /** Transfer src to file h, round by round. */
    method Transfer(h: nat, first: nat, src: seq<byte>, ghost size: nat, ghost p: nat, ghost clusters: nat)
      returns (wrote: nat)
      requires Writing(h, size, p) && p <= size && first == recs[h].chain[p / CS] && src != []
      requires FreeCount(tbl[..]) + |recs[h].chain| == clusters
      modifies tbl, data, fds, ctls, this`recs
      ensures Core() && Others(h) && Only(h, old(recs), old(fds[..]), old(ctls[..]))
      ensures FreeCount(tbl[..]) + |recs[h].chain| == clusters
      ensures wrote == Reach(size, p, |src|, clusters) && ctls[h].seek == p + wrote
      ensures Wrote(old(recs)[h].content, p, src[..wrote], recs[h].content)
      ensures |recs[h].chain| == Clusters(|recs[h].content|)
      ensures Complete(h) <==> wrote == Goal(size, p, |src|)
      ensures fds[h].size == if wrote < Goal(size, p, |src|) then size else |recs[h].content|
    {
      var rest: seq<byte>;
      ghost var done: seq<byte>;
      rest, done := WriteRounds(h, first, src, size, clusters);
      wrote := |src| - |rest|;
      assert src[..wrote] == done;
      assert Look(0);
    }

    /** What a write of src to file h has done; r, f and c tell what there was before, and clusters how many clusters the
        file had or could get. */
    ghost predicate WroteTo(h: nat, src: seq<byte>, wrote: nat, r: seq<Rec>, f: seq<Fd>, c: seq<Ctl>, clusters: nat)
      reads this, tbl, fds, ctls
    {
      && Sized() && h < FILES && |r| == |f| == |c| == FILES
      && forall k {:trigger Look(k)} :: Look(k) ==>
           && Changed(h, r, f, c) && FreeCount(tbl[..]) + |recs[h].chain| == clusters
           && wrote == Reach(f[h].size, c[h].seek, |src|, clusters)
           && Wrote(r[h].content, c[h].seek, src[..wrote], recs[h].content)
           && ctls[h].seek == c[h].seek + wrote
           && fds[h].size == (if wrote < Goal(f[h].size, c[h].seek, |src|) then f[h].size else |recs[h].content|)
           && |recs[h].chain| == Clusters(|recs[h].content|) + Wasted(f[h].size, c[h].seek, |src|)
    }

    /** Transfer src to file h, if there is anything to transfer; r, f and c tell what there was before. */
    method TransferAny(h: nat, first: nat, src: seq<byte>, ghost r: seq<Rec>, ghost f: seq<Fd>, ghost c: seq<Ctl>,
                       ghost clusters: nat)
      returns (wrote: nat)
      requires Begun(h, first, r, f, c, clusters)
      modifies tbl, data, fds, ctls, this`recs
      ensures Core() && Others(h) && WroteTo(h, src, wrote, r, f, c, clusters)
      ensures recs[h].chain != [] && recs[h].chain[0] == if r[h].chain == [] then first else r[h].chain[0]
      ensures fds[h].first == f[h].first && fds[h].erased == f[h].erased
      ensures f[h].erased || f[h].first == if r[h].chain == [] then EMPTY else r[h].chain[0]
      ensures r[h].chain != [] ==> r[h].chain[0] < COUNT
      ensures Complete(h) <==> Suffices(f[h].size, c[h].seek, |src|, clusters)
    {
      assert Look(0);
      ghost var ch := recs[h].chain;
      NeedsOneMore(f[h].size, c[h].seek);
      wrote := 0;
      if src == [] {
        WroteNothing(recs[h].content, c[h].seek);
      } else {
        wrote := Transfer(h, first, src, f[h].size, c[h].seek, clusters);
      }
      assert recs[h].chain[0] == ch[0];
    }

    /** What a write of src to file h does once it has begun; r, f and c tell what there was before. */
    method WriteBegun(h: nat, first: nat, src: seq<byte>, ghost r: seq<Rec>, ghost f: seq<Fd>, ghost c: seq<Ctl>,
                      ghost clusters: nat)
      returns (wrote: nat)
      requires Begun(h, first, r, f, c, clusters)
      modifies tbl, data, fds, ctls, this`recs
      ensures Core() && Others(h) && WroteTo(h, src, wrote, r, f, c, clusters)
      ensures fds[h].erased == f[h].erased && recs[h].chain != [] && (!f[h].erased ==> fds[h].first == recs[h].chain[0])
      ensures Complete(h) <==> Suffices(f[h].size, c[h].seek, |src|, clusters)
    {
      wrote := TransferAny(h, first, src, r, f, c, clusters);
      assert Look(0);
      SetFirst(h, first);
    }

    /** A write of n bytes to file h that begins leaves the file as its descriptor says: the file exists, the clusters
        suffice, and if no byte is written no cluster is taken. */
    predicate Orderly(h: nat, n: nat)
      requires tbl.Length == COUNT && fds.Length == ctls.Length == FILES && h < FILES
      reads tbl, fds, ctls
    {
      !fds[h].erased && Suffices(fds[h].size, ctls[h].seek, n, FreeCount(tbl[..]) + Clusters(fds[h].size))
    }

    /** The rest of a write that has begun; r, f and c tell what there was before. */
    method WriteOn(h: nat, first: nat, src: seq<byte>, ghost r: seq<Rec>, ghost f: seq<Fd>, ghost c: seq<Ctl>,
                   ghost clusters: nat)
      returns (ok: bool, wrote: nat)
      requires Begun(h, first, r, f, c, clusters)
      modifies tbl, data, fds, ctls, this`recs
      ensures Core() && WroteTo(h, src, wrote, r, f, c, clusters) && (ok <==> wrote == |src|)
      ensures Valid() <==> !f[h].erased && Suffices(f[h].size, c[h].seek, |src|, clusters)
    {
      wrote := WriteBegun(h, first, src, r, f, c, clusters);
      ok := wrote == |src|;
      Judged(h);
    }

    /** Write src to a file that may be written; r, f, c and free tell what there is before, and begun whether a cluster
        could be had at the start. */
    method WriteOpen(h: nat, src: seq<byte>, ghost r: seq<Rec>, ghost f: seq<Fd>, ghost c: seq<Ctl>, ghost free: nat)
      returns (ok: bool, wrote: nat, ghost begun: bool)
      requires Valid() && Writable(h) && r == recs && f == fds[..] && c == ctls[..] && free == FreeCount(tbl[..])
      modifies tbl, data, fds, ctls, this`recs
      ensures Core() && (begun <==> Begins(f[h].size, c[h].seek, free))
      ensures !begun ==>
                Valid() && !ok && wrote == 0 && recs == r && ctls[..] == c && fds[..] == f && tbl[..] == old(tbl[..])
      ensures begun ==> WroteTo(h, src, wrote, r, f, c, free + Clusters(f[h].size)) && (ok <==> wrote == |src|)
      ensures begun ==>
                (Valid() <==> !f[h].erased && Suffices(f[h].size, c[h].seek, |src|, free + Clusters(f[h].size)))
    {
      wrote := 0;
      var first: nat;
      ok, first := Begin(h);
      begun := ok;
      if ok {
        ok, wrote := WriteOn(h, first, src, r, f, c, free + Clusters(f[h].size));
      }
    }

    /** Write src at the seek pointer of file h. As much is written as the clusters allow, but a write that begins before
        the end of the file and goes beyond it while the last cluster is full stops at the end. Every cluster stays free
        or in exactly one chain. A write that is not orderly leaves a chain that the descriptor does not describe. A write
        that fails, even on a locked file, leaves the file unlocked. */
    method Write(h: nat, src: seq<byte>) returns (ok: bool, wrote: nat)
      requires Valid()
      modifies tbl, data, fds, ctls, this`recs
      ensures Core() && (Valid() <==> !old(Writes(h)) || old(Orderly(h, |src|)))
      ensures !old(Writes(h)) ==>
                !ok && wrote == 0 && recs == old(recs) && ctls[..] == Unlocked(old(ctls[..]), h)
                && fds[..] == old(fds[..]) && tbl[..] == old(tbl[..])
      ensures old(Writes(h)) ==>
                && WroteTo(h, src, wrote, old(recs), old(fds[..]), old(ctls[..]),
                           old(FreeCount(tbl[..]) + Clusters(fds[h].size)))
                && (ok <==> wrote == |src|)
    {
      ok, wrote := false, 0;
      if h >= FILES || ctls[h].locked || fds[h].readonly || ctls[h].mode != ForWriting || !ctls[h].open
         || ctls[h].seek > fds[h].size
      {
        var _ := Unlock(h);
        return;
      }
      ghost var begun: bool;
      ok, wrote, begun := WriteOpen(h, src, recs, fds[..], ctls[..], FreeCount(tbl[..]));
    }

    /** A write to file h is carried out. */
    predicate Writes(h: nat)
      requires tbl.Length == COUNT && fds.Length == ctls.Length == FILES
      reads tbl, fds, ctls
    {
      Writable(h) && Begins(fds[h].size, ctls[h].seek, FreeCount(tbl[..]))
    }

    // ---- reading ----

    /** One round of reading: the bytes in the current cluster, and on to the next one if more are wanted. */
    method ReadRound(h: nat, cluster: nat, off: nat, left: nat, ghost pos: nat)
      returns (chunk: seq<byte>, more: bool, next: nat)
      requires Core() && h < FILES && left > 0
      requires pos / CS < |recs[h].chain| && cluster == recs[h].chain[pos / CS] && off == pos % CS
      modifies ctls
      ensures 0 < |chunk| <= left && |chunk| <= CS - pos % CS
      ensures var at := Place(recs[h].chain, pos); at + CS - pos % CS <= data.Length && chunk == data[at..at + |chunk|]
      ensures ctls[..] == old(ctls[..])[h := old(ctls[h]).(seek := old(ctls[h]).seek + |chunk|)]
      ensures more ==>
                var end := pos + |chunk|;
                |chunk| < left && end / CS < |recs[h].chain| && next == recs[h].chain[end / CS] && end % CS == 0
      ensures !more ==> |chunk| == left || pos + |chunk| == |recs[h].chain| * CS
    {
      NextOf(h, pos / CS);
      var n := if left < CS - off then left else CS - off;
      ChunkEnds(pos, n);
      chunk := data[cluster * CS + off..cluster * CS + off + n];
      ctls[h] := ctls[h].(seek := ctls[h].seek + n);
      more, next := false, 0;
      if n < left {
        more, next := GetNext(cluster);
      }
    }

    /** Read up to want bytes from the clusters of file h, whatever its size. */
    method ReadRounds(h: nat, start: nat, want: nat) returns (out: seq<byte>)
      requires Core() && h < FILES && ctls[h].seek / CS < |recs[h].chain| && start == recs[h].chain[ctls[h].seek / CS]
      modifies ctls
      ensures Fetched(data[..], recs[h].chain, old(ctls[h]).seek, out)
      ensures |out| == (if old(ctls[h]).seek + want > |recs[h].chain| * CS
                        then |recs[h].chain| * CS - old(ctls[h]).seek else want)
      ensures ctls[..] == old(ctls[..])[h := old(ctls[h]).(seek := old(ctls[h]).seek + |out|)]
    {
      ghost var ch, p := recs[h].chain, ctls[h].seek;
      var cluster, off, more := start, ctls[h].seek % CS, want > 0;
      out := [];
      while more
        invariant Fetched(data[..], ch, p, out) && |out| <= want
        invariant ctls[..] == old(ctls[..])[h := old(ctls[h]).(seek := p + |out|)]
        invariant more ==>
                    (p + |out|) / CS < |ch| && cluster == ch[(p + |out|) / CS] && off == (p + |out|) % CS && |out| < want
        invariant !more ==> |out| == want || p + |out| == |ch| * CS
        decreases more, want - |out|
      {
        var chunk: seq<byte>;
        chunk, more, cluster := ReadRound(h, cluster, off, want - |out|, p + |out|);
        FetchMore(data[..], ch, p, out, |chunk|);
        out, off := out + chunk, 0;
      }
    }

    /** A file may be read at its seek pointer. */
    predicate Readable(h: nat)
      requires fds.Length == ctls.Length == FILES
      reads fds, ctls
    {
      h < FILES && !ctls[h].locked && ctls[h].open && ctls[h].seek < fds[h].size
    }

    /** The bytes of file h from p on that were fetched from its clusters are those of its content. */
    lemma FetchedOf(h: nat, p: nat, out: seq<byte>)
      requires Core() && h < FILES && Fetched(data[..], recs[h].chain, p, out) && p <= |recs[h].content|
      ensures if p + |out| <= |recs[h].content| then out == recs[h].content[p..p + |out|]
              else recs[h].content[p..] <= out
    {
      assert Stored(data[..], recs[h].chain, recs[h].content) by {
        assert Unfold(0);
        assert RecOk(tbl[..], data[..], recs[h]);
      }
      var m := if p + |out| <= |recs[h].content| then |out| else |recs[h].content| - p;
      FetchedPart(data[..], recs[h].chain, p, out, m);
      FetchedContent(data[..], recs[h].chain, recs[h].content, p, out[..m]);
    }

    lemma FewBytes(h: nat)
      requires Core() && h < FILES
      ensures |recs[h].chain| * CS < WORD32
    {
      assert Unfold(0);
      assert RecOk(tbl[..], data[..], recs[h]);
      ChainShort(tbl[..], recs[h].chain);
    }

    /** Read from the seek pointer of file h: the bytes of the file there, as many as there are. Only if the position
        asked for wraps to one inside the file, the rest of its last cluster is read as well. A read that fails, even on a
        locked file, leaves the file unlocked. */
    method Read(h: nat, n: nat) returns (ok: bool, out: seq<byte>)
      requires Valid() && n < WORD32
      modifies ctls
      ensures Valid()
      ensures !old(Readable(h)) ==> !ok && out == [] && ctls[..] == Unlocked(old(ctls[..]), h)
      ensures old(Readable(h)) ==>
                var p, size, c := old(ctls[h]).seek, fds[h].size, recs[h].content;
                && size == |c| && |out| == ReadCount(size, p, n)
                && (if Overreads(size, p, n) then c[p..] <= out else out == c[p..p + |out|])
                && (ok <==> n > 0 && !Overreads(size, p, n))
                && ctls[..] == old(ctls[..])[h := old(ctls[h]).(seek := p + |out|,
                     eof := old(ctls[h]).eof || (n > size - p && !Overreads(size, p, n)))]
    {
      ok, out := false, [];
      if h >= FILES || ctls[h].locked || !ctls[h].open || ctls[h].seek >= fds[h].size {
        var _ := Unlock(h);
        return;
      }
      OneDescribed(h);
      FewBytes(h);
      var start, want := 0, n;
      ok, start := SeekCluster(h);
      var clipped := (n + ctls[h].seek) % WORD32 > fds[h].size;
      assert clipped <==> n > fds[h].size - ctls[h].seek && !Overreads(fds[h].size, ctls[h].seek, n);
      if clipped {
        want := fds[h].size - ctls[h].seek;
        ctls[h] := ctls[h].(eof := true);
      }
      ghost var p := ctls[h].seek;
      out := ReadRounds(h, start, want);
      ok := want > 0 && |out| == want;
      FetchedOf(h, p, out);
    }

    // ---- creating, opening, closing and deleting ----

    /** Give the first unused descriptor to a new, empty file, and open it for writing. */
    method Create() returns (ok: bool, h: nat)
      requires Valid()
      modifies fds, ctls
      ensures Valid()
      ensures ok <==> exists j :: 0 <= j < FILES && old(fds[j]).erased
      ensures !ok ==> fds[..] == old(fds[..]) && ctls[..] == old(ctls[..])
      ensures ok ==> h < FILES && old(fds[h]).erased && recs[h] == Rec([], [])
      ensures ok ==> forall j :: 0 <= j < h ==> !old(fds[j]).erased
      ensures ok ==> fds[..] == old(fds[..])[h := Fd(0, EMPTY, false, false)]
      ensures ok ==> ctls[..] == old(ctls[..])[h := Ctl(0, old(ctls[h]).eof, true, ForWriting, false)]
    {
      ok, h := false, 0;
      while h < FILES && !fds[h].erased
        invariant h <= FILES && forall j :: 0 <= j < h ==> !fds[j].erased
      {
        h := h + 1;
      }
      if h < FILES {
        ok := true;
        OneDescribed(h);
        fds[h] := Fd(0, EMPTY, false, false);
        ctls[h] := ctls[h].(open := true, locked := false, seek := 0, mode := ForWriting);
        OthersKept(h, old(fds[..]), recs);
        AllDescribed(h);
      }
    }

    /** Open a file that is neither open nor locked. */
    method Open(h: nat, mode: Mode) returns (ok: bool)
      requires Valid()
      modifies ctls
      ensures Valid()
      ensures ok <==> h < FILES && !fds[h].erased && !old(ctls[..])[h].locked && !old(ctls[..])[h].open
                      && !(mode == ForWriting && fds[h].readonly)
      ensures ctls[..] == if ok then old(ctls[..])[h := Ctl(0, false, true, mode, false)] else old(ctls[..])
    {
      ok := h < FILES && !fds[h].erased && !ctls[h].locked && !ctls[h].open && !(mode == ForWriting && fds[h].readonly);
      if ok {
        ctls[h] := ctls[h].(open := true, mode := mode, seek := 0, eof := false);
      }
    }

    method Close(h: nat) returns (ok: bool)
      requires Valid()
      modifies ctls
      ensures Valid() && (ok <==> h < FILES)
      ensures ctls[..] == if ok then old(ctls[..])[h := old(ctls[..])[h].(open := false, seek := 0)] else old(ctls[..])
    {
      ok := h < FILES;
      if ok {
        ctls[h] := ctls[h].(open := false, seek := 0);
      }
    }

    /** Free the clusters of a chain one after the other, from first on. */
    method FreeChain(h: nat, first: nat)
      requires Core() && h < FILES && Others(h) && recs[h].content == []
      requires if recs[h].chain == [] then first >= COUNT else first == recs[h].chain[0]
      modifies tbl, this`recs
      ensures Core() && Others(h) && recs == old(recs)[h := Rec([], [])]
      ensures forall c :: c in old(recs)[h].chain ==> c < COUNT && tbl[c] == FREE
      ensures FreeCount(tbl[..]) == old(FreeCount(tbl[..])) + |old(recs)[h].chain|
    {
      ghost var ch, done := recs[h].chain, 0;
      var current, more := first, true;
      while more
        invariant Core() && Others(h) && done <= |ch| && recs == old(recs)[h := Rec(ch[done..], [])]
        invariant more ==> if done == |ch| then current >= COUNT else current == ch[done]
        invariant !more ==> done == |ch|
        invariant forall i :: 0 <= i < done ==> ch[i] < COUNT && tbl[ch[i]] == FREE
        invariant FreeCount(tbl[..]) == old(FreeCount(tbl[..])) + done
        decreases more, |ch| - done
      {
        if done < |ch| {
          NextOf(h, 0);
          if done + 1 < |ch| { NextOf(h, 1); }
        }
        var next: nat;
        more, next := GetNext(current);
        if current < COUNT {
          FreeFirst(h, current);
          done := done + 1;
        }
        current := next;
      }
    }

    /** Free the first cluster of a file without bytes. */
    method FreeFirst(h: nat, c: nat)
      requires Core() && h < FILES && Others(h) && recs[h].content == [] && recs[h].chain != [] && c == recs[h].chain[0]
      modifies tbl, this`recs
      ensures c < COUNT && tbl[..] == old(tbl[..])[c := FREE]
              && recs == old(recs)[h := Rec(old(recs)[h].chain[1..], [])]
      ensures Core() && Others(h) && FreeCount(tbl[..]) == old(FreeCount(tbl[..])) + 1
    {
      ghost var t, r := tbl[..], recs;
      assert Sound(t, data[..], r) && Described(fds[..], r, t, h) by { assert Unfold(0); }
      DropSound(t, data[..], r, h);
      MarkCount(t, data[..], r, h, c, FREE);
      tbl[c] := FREE;
      recs := recs[h := Rec(recs[h].chain[1..], [])];
      DescribedKept(fds[..], data[..], r, recs, t, tbl[..], h, c, COUNT);
    }

    /** Delete a file that is not locked: its clusters become free, and only they. The file, and whatever handles there
        are to it, stay locked. */
    method Delete(h: nat) returns (ok: bool)
      requires Valid()
      modifies tbl, fds, ctls, this`recs
      ensures Valid()
      ensures ok <==> h < FILES && !old(fds[..])[h].erased && !old(ctls[..])[h].locked && !old(fds[..])[h].readonly
      ensures ctls[..] == if ok then old(ctls[..])[h := old(ctls[..])[h].(locked := true)] else old(ctls[..])
      ensures !ok ==> recs == old(recs) && fds[..] == old(fds[..]) && tbl[..] == old(tbl[..])
      ensures ok ==> FreeCount(tbl[..]) == old(FreeCount(tbl[..])) + |old(recs)[h].chain|
      ensures ok ==> recs == old(recs)[h := Rec([], [])] && fds[..] == old(fds[..])[h := Fd(0, 0, true, false)]
      ensures ok ==> forall c :: c in old(recs)[h].chain ==> c < COUNT && tbl[c] == FREE
    {
      ok := h < FILES && !fds[h].erased && !ctls[h].locked && !fds[h].readonly;
      if ok {
        ctls[h] := ctls[h].(locked := true);
        OneDescribed(h);
        assert Sound(tbl[..], data[..], recs) by { assert Unfold(0); }
        EraseSound(tbl[..], data[..], recs, h);
        var first := fds[h].first;
        ghost var r := recs;
        recs := recs[h := recs[h].(content := [])];
        fds[h] := Fd(0, 0, true, false);
        OthersKept(h, old(fds[..]), r);
        FreeChain(h, first);
        AllDescribed(h);
      }
    }

    // ---- seeking ----

    /** Move the seek pointer of file h, which is not locked: to a position inside the file other than its beginning, or
        by an offset from the pointer or from the end, modulo 2^32. */
    method Seek(h: nat, from: Origin, pos: int) returns (ok: bool)
      requires Valid() && -0x8000_0000 <= pos < 0x8000_0000
      modifies ctls
      ensures Valid()
      ensures ok <==> h < FILES && !old(ctls[..])[h].locked && (from == Beginning ==> 0 < pos < fds[h].size)
      ensures ctls[..] ==
              if ok then old(ctls[..])[h := old(ctls[h]).(seek := Target(from, old(ctls[h]).seek, fds[h].size, pos))]
              else old(ctls[..])
    {
      ok := h < FILES && !ctls[h].locked && (from == Beginning ==> 0 < pos < fds[h].size);
      if ok {
        ctls[h] := ctls[h].(seek := Target(from, ctls[h].seek, fds[h].size, pos));
      }
    }
  }

  /** The control records with file h unlocked. */
  function Unlocked(ctls: seq<Ctl>, h: nat): (r: seq<Ctl>)
    ensures |r| == |ctls|
  {
    if h < |ctls| then ctls[h := ctls[h].(locked := false)] else ctls
  }

  /** Where a seek leads to, in 32 bits. */
  function Target(from: Origin, seek: nat, size: nat, pos: int): (t: nat)
    ensures t < WORD32
    ensures from == Beginning && 0 < pos < WORD32 ==> t == pos
    ensures from == Current && 0 <= seek + pos < WORD32 ==> t == seek + pos
    ensures from == FromEnd && 0 <= size + pos < WORD32 ==> t == size + pos
  {
    match from
    case Beginning => pos % WORD32
    case Current => (seek + pos) % WORD32
    case FromEnd => (size + pos) % WORD32
  }

  lemma {:induction false} AllFree(tbl: seq<nat>, n: nat)
    requires n <= |tbl| && forall c :: 0 <= c < |tbl| ==> tbl[c] == FREE
    ensures Frees(tbl, n) == n
  {
    if n > 0 {
      AllFree(tbl, n - 1);
    }
  }
}
