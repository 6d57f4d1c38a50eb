/**
 The tiny file system as values: a table of clusters, the bytes of the clusters, and files, each of which is a
 chain of clusters and the bytes stored in them.
 */
module TfsState {
  import opened ByteSeqs

  type ClusterCount = n: nat | 2 <= n < 0xFFFB witness 32
  type FileCount = n: nat | 1 <= n < 0xFFFF witness 8

  const CS := 32             // bytes in a cluster
  const COUNT: ClusterCount  // clusters, whatever their number
  const FILES: FileCount     // file descriptors, whatever their number
  const FREE := 0xFFFF
  const LAST := 0xFFFD       // ends a chain
  const RESERVED := 0xFFFC   // taken, but not linked yet
  const EMPTY := 0xFFFB      // first cluster of a file without any

  /** What a file is: its clusters and its bytes. */
  datatype Rec = Rec(chain: seq<nat>, content: seq<byte>)

  ghost predicate Disjoint(a: seq<nat>, b: seq<nat>) {
    forall c :: c in a ==> c !in b
  }

  /** Clusters needed for a number of bytes. */
  function Clusters(n: nat): nat {
    (n + CS - 1) / CS
  }

  ghost predicate Link(tbl: seq<nat>, ch: seq<nat>, i: nat)
    requires i < |ch| && |tbl| == COUNT
  {
    ch[i] < COUNT && if i + 1 < |ch| then tbl[ch[i]] == ch[i + 1] else COUNT <= tbl[ch[i]] < FREE
  }

  /** ch is a chain of the table: its last entry is no cluster. */
  ghost predicate Chain(tbl: seq<nat>, ch: seq<nat>)
    requires |tbl| == COUNT
  {
    && Distinct(ch)
    && forall i: nat {:trigger Link(tbl, ch, i)} :: i < |ch| ==> Link(tbl, ch, i)
  }

  /** Where byte i of a chain lies. */
  function Place(ch: seq<nat>, i: nat): nat
    requires i < |ch| * CS
  {
    ch[i / CS] * CS + i % CS
  }

  ghost predicate ByteAt(data: seq<byte>, ch: seq<nat>, content: seq<byte>, i: nat)
    requires i < |content| <= |ch| * CS
  {
    Place(ch, i) < |data| && data[Place(ch, i)] == content[i]
  }

  /** The chain holds the content. */
  ghost predicate Stored(data: seq<byte>, ch: seq<nat>, content: seq<byte>) {
    && |content| <= |ch| * CS
    && forall i: nat {:trigger ByteAt(data, ch, content, i)} :: i < |content| ==> ByteAt(data, ch, content, i)
  }

  ghost predicate RecOk(tbl: seq<nat>, data: seq<byte>, r: Rec)
    requires |tbl| == COUNT
  {
    Chain(tbl, r.chain) && Stored(data, r.chain, r.content)
  }

  ghost predicate Owned(recs: seq<Rec>, c: nat) {
    exists h :: 0 <= h < |recs| && c in recs[h].chain
  }

  /** Every cluster is free or belongs to exactly one chain. */
  ghost predicate Sound(tbl: seq<nat>, data: seq<byte>, recs: seq<Rec>) {
    && |tbl| == COUNT && |data| == COUNT * CS && |recs| == FILES
    && (forall h :: 0 <= h < FILES ==> RecOk(tbl, data, recs[h]))
    && (forall h, j :: 0 <= h < FILES && 0 <= j < FILES && h != j ==> Disjoint(recs[h].chain, recs[j].chain))
    && (forall c: nat :: c < COUNT ==> (tbl[c] == FREE <==> !Owned(recs, c)))
  }

  // ---- where bytes lie ----

  /** The cluster k links behind c. */
  function Follow(tbl: seq<nat>, c: nat, k: nat): nat {
    if k == 0 then c else var p := Follow(tbl, c, k - 1); if p < |tbl| then tbl[p] else p
  }

  /** A chain is what the links lead to. */
  lemma {:induction false} ChainFollows(tbl: seq<nat>, ch: seq<nat>, k: nat)
    requires |tbl| == COUNT && Chain(tbl, ch) && k < |ch|
    ensures Follow(tbl, ch[0], k) == ch[k] < COUNT
    decreases k
  {
    assert Link(tbl, ch, k);
    if k > 0 {
      ChainFollows(tbl, ch, k - 1);
      assert Link(tbl, ch, k - 1);
    }
  }

  /** A file of n bytes has as many clusters as it needs, and no more. */
  lemma ClustersFit(n: nat)
    ensures n <= Clusters(n) * 32 && (n > 0 ==> (Clusters(n) - 1) * 32 < n) && (n == 0 ==> Clusters(n) == 0)
  {
    assert n + CS - 1 == (n + CS - 1) / CS * CS + (n + CS - 1) % CS;
  }

  // ---- frames ----

  lemma ChainKept(tbl: seq<nat>, tbl': seq<nat>, ch: seq<nat>)
    requires |tbl| == |tbl'| == COUNT && Chain(tbl, ch) && forall c :: c in ch && 0 <= c < COUNT ==> tbl'[c] == tbl[c]
    ensures Chain(tbl', ch)
  {
    forall i: nat | i < |ch| ensures Link(tbl', ch, i) {
      assert Link(tbl, ch, i);
    }
  }

  /** Bytes outside the clusters of a chain may change. */
  lemma StoredKept(data: seq<byte>, data': seq<byte>, ch: seq<nat>, content: seq<byte>, c: nat)
    requires |data'| == |data| && Stored(data, ch, content) && c !in ch
    requires forall p :: 0 <= p < |data| && !(c * CS <= p < c * CS + CS) ==> data'[p] == data[p]
    ensures Stored(data', ch, content)
  {
    forall i: nat | i < |content| ensures ByteAt(data', ch, content, i) {
      assert ByteAt(data, ch, content, i);
      assert ch[i / CS] != c;
    }
  }

  // ---- steps ----

  /** The table after cluster c was put behind the chain. */
  function Extended(tbl: seq<nat>, ch: seq<nat>, c: nat): (r: seq<nat>)
    requires |tbl| == COUNT && c < COUNT && (ch != [] ==> ch[|ch| - 1] < COUNT)
    ensures |r| == COUNT
  {
    if ch == [] then tbl[c := RESERVED] else tbl[c := RESERVED][ch[|ch| - 1] := c]
  }

  lemma ExtendedChain(tbl: seq<nat>, ch: seq<nat>, c: nat)
    requires |tbl| == COUNT && Chain(tbl, ch) && c < COUNT && c !in ch
    ensures ch != [] ==> ch[|ch| - 1] < COUNT
    ensures Chain(Extended(tbl, ch, c), ch + [c])
  {
    if ch != [] {
      assert Link(tbl, ch, |ch| - 1);
    }
    var tbl' := Extended(tbl, ch, c);
    forall i: nat | i < |ch| + 1 ensures Link(tbl', ch + [c], i) {
      if i < |ch| {
        assert Link(tbl, ch, i);
      }
    }
  }

  lemma StoredLonger(data: seq<byte>, ch: seq<nat>, content: seq<byte>, c: nat)
    requires Stored(data, ch, content)
    ensures Stored(data, ch + [c], content)
  {
    forall i: nat | i < |content| ensures ByteAt(data, ch + [c], content, i) {
      assert ByteAt(data, ch, content, i);
      assert (ch + [c])[i / CS] == ch[i / CS];
    }
  }

  lemma ExtendSound(tbl: seq<nat>, data: seq<byte>, recs: seq<Rec>, h: nat, c: nat)
    requires Sound(tbl, data, recs) && h < FILES && c < COUNT && tbl[c] == FREE
    ensures recs[h].chain != [] ==> recs[h].chain[|recs[h].chain| - 1] < COUNT
    ensures Sound(Extended(tbl, recs[h].chain, c), data, recs[h := recs[h].(chain := recs[h].chain + [c])])
  {
    var ch := recs[h].chain;
    assert !Owned(recs, c);
    assert RecOk(tbl, data, recs[h]);
    ExtendedChain(tbl, ch, c);
    StoredLonger(data, ch, recs[h].content, c);
    var tbl', recs' := Extended(tbl, ch, c), recs[h := recs[h].(chain := ch + [c])];
    forall j | 0 <= j < FILES && j != h ensures RecOk(tbl', data, recs[j]) {
      assert RecOk(tbl, data, recs[j]) && Disjoint(recs[h].chain, recs[j].chain);
      ChainKept(tbl, tbl', recs[j].chain);
    }
    forall d: nat | d < COUNT ensures tbl'[d] == FREE <==> !Owned(recs', d) {
      OwnedLonger(recs, h, c, d);
    }
  }

  lemma OwnedLonger(recs: seq<Rec>, h: nat, c: nat, d: nat)
    requires h < |recs|
    ensures Owned(recs[h := recs[h].(chain := recs[h].chain + [c])], d) <==> Owned(recs, d) || d == c
  {
    var recs' := recs[h := recs[h].(chain := recs[h].chain + [c])];
    assert forall j :: 0 <= j < |recs| ==> (d in recs'[j].chain <==> d in recs[j].chain || (j == h && d == c));
    if d == c {
      assert d in recs'[h].chain;
    }
  }

  /** Writing a chunk inside one cluster of the chain, at most at its end. */
  lemma ChunkStored(data: seq<byte>, ch: seq<nat>, content: seq<byte>, p: nat, chunk: seq<byte>)
    requires Stored(data, ch, content) && Distinct(ch) && p <= |content| && p / CS < |ch| && p % CS + |chunk| <= CS
    requires ch[p / CS] * CS + CS <= |data|
    ensures Place(ch, p) + |chunk| <= |data|
    ensures Stored(Replace(data, Place(ch, p), chunk), ch, Spliced(content, p, chunk))
  {
    var data', content' := Replace(data, Place(ch, p), chunk), Spliced(content, p, chunk);
    forall i: nat | i < |content'| ensures ByteAt(data', ch, content', i) {
      if p <= i < p + |chunk| {
        assert i / CS == p / CS && Place(ch, i) == Place(ch, p) + (i - p);
      } else {
        assert ByteAt(data, ch, content, i);
        if i / CS == p / CS {
          assert Place(ch, i) == Place(ch, p) + (i - p);
        } else {
          assert ch[i / CS] != ch[p / CS];
        }
      }
    }
  }

  lemma ChunkSound(tbl: seq<nat>, data: seq<byte>, recs: seq<Rec>, h: nat, p: nat, chunk: seq<byte>)
    requires Sound(tbl, data, recs) && h < FILES && p <= |recs[h].content|
    requires p / CS < |recs[h].chain| && p % CS + |chunk| <= CS
    ensures Place(recs[h].chain, p) + |chunk| <= |data|
    ensures Sound(tbl, Replace(data, Place(recs[h].chain, p), chunk),
                  recs[h := recs[h].(content := Spliced(recs[h].content, p, chunk))])
  {
    var ch, c := recs[h].chain, recs[h].chain[p / CS];
    assert RecOk(tbl, data, recs[h]);
    assert Link(tbl, ch, p / CS);
    ChunkStored(data, ch, recs[h].content, p, chunk);
    var data', recs' := Replace(data, Place(ch, p), chunk), recs[h := recs[h].(content := Spliced(recs[h].content, p, chunk))];
    forall j | 0 <= j < FILES && j != h ensures RecOk(tbl, data', recs[j]) {
      assert RecOk(tbl, data, recs[j]) && Disjoint(recs[h].chain, recs[j].chain);
      StoredKept(data, data', recs[j].chain, recs[j].content, c);
    }
    SameOwners(recs, recs');
  }

  lemma SameOwners(recs: seq<Rec>, recs': seq<Rec>)
    requires |recs'| == |recs| && forall j :: 0 <= j < |recs| ==> recs'[j].chain == recs[j].chain
    ensures forall c :: Owned(recs', c) <==> Owned(recs, c)
  {
  }

  /** Marking the end of a chain. */
  lemma MarkSound(tbl: seq<nat>, data: seq<byte>, recs: seq<Rec>, h: nat)
    requires Sound(tbl, data, recs) && h < FILES && recs[h].chain != []
    ensures var last := recs[h].chain[|recs[h].chain| - 1]; last < COUNT && Sound(tbl[last := LAST], data, recs)
  {
    var ch := recs[h].chain;
    var last := ch[|ch| - 1];
    assert RecOk(tbl, data, recs[h]);
    assert Link(tbl, ch, |ch| - 1);
    var tbl' := tbl[last := LAST];
    forall i: nat | i < |ch| ensures Link(tbl', ch, i) {
      assert Link(tbl, ch, i);
    }
    forall j | 0 <= j < FILES && j != h ensures RecOk(tbl', data, recs[j]) {
      assert RecOk(tbl, data, recs[j]) && Disjoint(recs[h].chain, recs[j].chain);
      ChainKept(tbl, tbl', recs[j].chain);
    }
    assert Owned(recs, last);
  }

  /** A file without bytes may lose its first cluster. */
  lemma DropSound(tbl: seq<nat>, data: seq<byte>, recs: seq<Rec>, h: nat)
    requires Sound(tbl, data, recs) && h < FILES && recs[h].chain != [] && recs[h].content == []
    ensures var c := recs[h].chain[0];
            c < COUNT && Sound(tbl[c := FREE], data, recs[h := Rec(recs[h].chain[1..], [])])
  {
    var ch := recs[h].chain;
    var c, rest := ch[0], ch[1..];
    assert RecOk(tbl, data, recs[h]);
    assert Link(tbl, ch, 0);
    var tbl', recs' := tbl[c := FREE], recs[h := Rec(rest, [])];
    forall i: nat | i < |rest| ensures Link(tbl', rest, i) {
      assert Link(tbl, ch, i + 1);
    }
    forall j | 0 <= j < FILES && j != h ensures RecOk(tbl', data, recs[j]) {
      assert RecOk(tbl, data, recs[j]) && Disjoint(recs[h].chain, recs[j].chain);
      ChainKept(tbl, tbl', recs[j].chain);
    }
    forall d: nat | d < COUNT ensures tbl'[d] == FREE <==> !Owned(recs', d) {
      OwnedShorter(recs, h, d);
    }
  }

  lemma OwnedShorter(recs: seq<Rec>, h: nat, d: nat)
    requires h < |recs| && recs[h].chain != [] && Distinct(recs[h].chain)
    requires forall j :: 0 <= j < |recs| && j != h ==> Disjoint(recs[h].chain, recs[j].chain)
    ensures Owned(recs[h := Rec(recs[h].chain[1..], [])], d) <==> Owned(recs, d) && d != recs[h].chain[0]
  {
    var ch := recs[h].chain;
    var recs' := recs[h := Rec(ch[1..], [])];
    assert d in ch <==> d == ch[0] || d in ch[1..];
    assert ch[0] !in ch[1..];
    forall j | 0 <= j < |recs| ensures d in recs'[j].chain <==> d in recs[j].chain && d != ch[0] {
      if j != h {
        assert Disjoint(recs[h].chain, recs[j].chain) && ch[0] in recs[h].chain;
      }
    }
    if d == ch[0] {
      assert d in recs[h].chain;
    }
  }

  /** A file may lose its bytes. */
  lemma EraseSound(tbl: seq<nat>, data: seq<byte>, recs: seq<Rec>, h: nat)
    requires Sound(tbl, data, recs) && h < FILES
    ensures Sound(tbl, data, recs[h := recs[h].(content := [])])
  {
    var recs' := recs[h := recs[h].(content := [])];
    forall j | 0 <= j < FILES ensures RecOk(tbl, data, recs'[j]) {
      assert RecOk(tbl, data, recs[j]);
    }
    SameOwners(recs, recs');
  }

  // ---- free clusters ----

  /** Number of free entries among the first n. */
  function Frees(tbl: seq<nat>, n: nat): (k: nat)
    requires n <= |tbl|
    ensures k <= n
  {
    if n == 0 then 0 else Frees(tbl, n - 1) + if tbl[n - 1] == FREE then 1 else 0
  }

  /** Number of free clusters. */
  function FreeCount(tbl: seq<nat>): nat {
    Frees(tbl, |tbl|)
  }

  /** The free clusters below n. */
  ghost function FreeSet(tbl: seq<nat>, n: nat): set<nat>
    requires n <= |tbl|
  {
    set c: nat | c < n && tbl[c] == 0xFFFF
  }

  /** The count is their number. */
  lemma {:induction false} FreesCount(tbl: seq<nat>, n: nat)
    requires n <= |tbl|
    ensures Frees(tbl, n) == |FreeSet(tbl, n)|
  {
    if n > 0 {
      FreesCount(tbl, n - 1);
      assert FreeSet(tbl, n) == FreeSet(tbl, n - 1) + if tbl[n - 1] == 0xFFFF then {n - 1} else {};
    } else {
      assert FreeSet(tbl, n) == {};
    }
  }

  lemma {:induction false} FreesNone(tbl: seq<nat>, n: nat)
    requires n <= |tbl|
    ensures Frees(tbl, n) == 0 <==> forall c :: 0 <= c < n ==> tbl[c] != FREE
  {
    if n > 0 {
      FreesNone(tbl, n - 1);
    }
  }

  lemma {:induction false} FreesStep(tbl: seq<nat>, n: nat, c: nat, v: nat)
    requires n <= |tbl| && c < |tbl|
    ensures Frees(tbl[c := v], n) == Frees(tbl, n) + (if c < n && v == FREE then 1 else 0) - if c < n
            && tbl[c] == FREE then 1 else 0
  {
    if n > 0 {
      FreesStep(tbl, n - 1, c, v);
    }
  }

  /** Free cluster c was taken, and only it and prev have new entries. */
  ghost predicate Taken(tbl: seq<nat>, tbl': seq<nat>, prev: nat, c: nat)
    requires |tbl| == |tbl'| == COUNT
  {
    && (forall d :: 0 <= d < COUNT && d != c && d != prev ==> tbl'[d] == tbl[d])
    && FreeCount(tbl') == FreeCount(tbl) - 1
  }

  lemma ExtendedTaken(tbl: seq<nat>, data: seq<byte>, recs: seq<Rec>, h: nat, prev: nat, c: nat)
    requires Sound(tbl, data, recs) && h < FILES && c < COUNT && tbl[c] == FREE
    requires recs[h].chain != [] ==> prev == recs[h].chain[|recs[h].chain| - 1] < COUNT
    ensures Taken(tbl, Extended(tbl, recs[h].chain, c), prev, c)
  {
    var ch := recs[h].chain;
    FreesStep(tbl, |tbl|, c, RESERVED);
    if ch != [] {
      assert RecOk(tbl, data, recs[h]);
      assert Link(tbl, ch, |ch| - 1);
      FreesStep(tbl[c := RESERVED], |tbl|, prev, c);
    }
  }

  /** Marking the end of a chain takes no cluster, and dropping a cluster frees one. */
  lemma MarkCount(tbl: seq<nat>, data: seq<byte>, recs: seq<Rec>, h: nat, c: nat, v: nat)
    requires Sound(tbl, data, recs) && h < FILES && c in recs[h].chain
    ensures c < COUNT && FreeCount(tbl[c := v]) == FreeCount(tbl) + if v == FREE then 1 else 0
  {
    var i :| 0 <= i < |recs[h].chain| && recs[h].chain[i] == c;
    assert RecOk(tbl, data, recs[h]);
    assert Link(tbl, recs[h].chain, i);
    assert Owned(recs, c);
    FreesStep(tbl, |tbl|, c, v);
  }

  /** Entries of free clusters and of the clusters of one file may change without touching the chain of another. */
  lemma LastKept(tbl: seq<nat>, tbl': seq<nat>, data: seq<byte>, recs: seq<Rec>, h: nat, j: nat, prev: nat, c: nat)
    requires Sound(tbl, data, recs) && |tbl'| == COUNT && h < FILES && j < FILES && h != j && recs[j].chain != []
    requires forall d :: 0 <= d < COUNT && d != c && d != prev ==> tbl'[d] == tbl[d]
    requires prev < COUNT ==> prev in recs[h].chain
    requires c < COUNT ==> tbl[c] == FREE
    ensures var last := recs[j].chain[|recs[j].chain| - 1]; last < COUNT && tbl'[last] == tbl[last]
  {
    var last := recs[j].chain[|recs[j].chain| - 1];
    assert RecOk(tbl, data, recs[j]);
    assert Link(tbl, recs[j].chain, |recs[j].chain| - 1);
    assert Owned(recs, last);
    assert Disjoint(recs[h].chain, recs[j].chain);
  }

  // ---- descriptors ----

  /** File descriptor. */
  datatype Fd = Fd(size: nat, first: nat, erased: bool, readonly: bool)

  /** The descriptor describes the file. */
  ghost predicate Describes(fd: Fd, r: Rec, tbl: seq<nat>)
    requires |tbl| == COUNT
  {
    if fd.erased then r == Rec([], []) && fd.size == 0
    else
      && fd.size == |r.content| && |r.chain| == Clusters(fd.size)
      && fd.first == (if r.chain == [] then EMPTY else r.chain[0])
      && (r.chain != [] ==> r.chain[|r.chain| - 1] < COUNT && tbl[r.chain[|r.chain| - 1]] == LAST)
  }

  /** Every file but h is what its descriptor says. */
  ghost predicate Described(fds: seq<Fd>, recs: seq<Rec>, tbl: seq<nat>, h: nat)
    requires |fds| == |recs| == FILES && |tbl| == COUNT
  {
    forall j :: 0 <= j < FILES && j != h ==> Describes(fds[j], recs[j], tbl)
  }

  lemma DescribedKept(fds: seq<Fd>, data: seq<byte>, recs: seq<Rec>, recs': seq<Rec>, tbl: seq<nat>, tbl': seq<nat>,
                      h: nat, prev: nat, c: nat)
    requires Sound(tbl, data, recs) && |tbl'| == COUNT && |fds| == |recs'| == FILES && h < FILES
             && Described(fds, recs, tbl, h)
    requires forall j :: 0 <= j < FILES && j != h ==> recs'[j] == recs[j]
    requires forall d :: 0 <= d < COUNT && d != c && d != prev ==> tbl'[d] == tbl[d]
    requires prev < COUNT ==> prev in recs[h].chain
    requires c < COUNT ==> tbl[c] == FREE
    ensures Described(fds, recs', tbl', h)
  {
    forall j: nat | j < FILES && j != h ensures Describes(fds[j], recs'[j], tbl') {
      assert Describes(fds[j], recs[j], tbl);
      if recs[j].chain != [] {
        LastKept(tbl, tbl', data, recs, h, j, prev, c);
      }
    }
  }

  function Max(a: nat, b: nat): nat {
    if a > b then a else b
  }

  /** A chunk of n bytes inside a cluster; if bytes follow, it ends with the cluster. */
  lemma ChunkEnds(p: nat, n: nat)
    requires 0 < n <= CS - p % CS
    ensures Clusters(p + n) == p / CS + 1
    ensures n == CS - p % CS ==> (p + n) % CS == 0 && (p + n) / CS == p / CS + 1
  {
  }

  /** What the table says behind the i-th cluster of a file. */
  lemma NextInChain(tbl: seq<nat>, data: seq<byte>, recs: seq<Rec>, h: nat, i: nat)
    requires Sound(tbl, data, recs) && h < FILES && i < |recs[h].chain|
    ensures var ch := recs[h].chain;
            ch[i] < COUNT && if i + 1 < |ch| then tbl[ch[i]] == ch[i + 1] < COUNT else COUNT <= tbl[ch[i]] < FREE
  {
    var ch := recs[h].chain;
    assert RecOk(tbl, data, recs[h]);
    assert Link(tbl, ch, i) && (i + 1 < |ch| ==> Link(tbl, ch, i + 1));
  }

  /** A write of n bytes at p to a file of the given size stops at the end of the file: it begins before the end, goes
      beyond it, and the end is the end of a cluster. */
  predicate Stops(size: nat, p: nat, n: nat) {
    p < size && size % CS == 0 && p + n > size
  }

  /** How many of n bytes a write at p transfers. */
  function Goal(size: nat, p: nat, n: nat): (g: nat)
    ensures g <= n
  {
    if Stops(size, p, n) then size - p else n
  }

  /** A chunk of n bytes brings a write of m bytes nearer to its goal, and reaches it if no bytes are left or the end of
      the file is reached. */
  lemma GoalStep(size: nat, p: nat, m: nat, n: nat)
    requires 0 < n <= m && n <= CS - p % CS && (n < m ==> n == CS - p % CS)
    ensures n <= Goal(size, p, m)
    ensures n == m || p + n == size ==> n == Goal(size, p, m)
    ensures n < m && p + n != size ==> Goal(size, p + n, m - n) == Goal(size, p, m) - n
    ensures n < m && p + n > size ==> Clusters(p + Goal(size, p, m)) > p / CS + 1 && p + n == p / CS * CS + CS
  {
    ChunkEnds(p, n);
  }

  /** A write at p begins, unless it needs a cluster at once and none is free. */
  predicate Begins(size: nat, p: nat, free: nat) {
    !(NeedsCluster(size, p) && free == 0)
  }

  /** The file ends at p, and there is no cluster for the byte at p. */
  predicate NeedsCluster(size: nat, p: nat) {
    p == size && p % CS == 0
  }

  lemma NeedsOneMore(size: nat, p: nat)
    requires p <= size
    ensures Max(Clusters(size), p / CS + 1) == Clusters(size) + if NeedsCluster(size, p) then 1 else 0
  {
  }

  /** How many clusters a write of n bytes at p takes and leaves empty. */
  function Wasted(size: nat, p: nat, n: nat): nat {
    if n == 0 && NeedsCluster(size, p) then 1 else 0
  }

  /** How many of n bytes a write at p transfers when the file can have no more than the given number of clusters. */
  function Reach(size: nat, p: nat, n: nat, clusters: nat): (r: nat)
    ensures r <= Goal(size, p, n)
  {
    if p + Goal(size, p, n) <= clusters * CS then Goal(size, p, n)
    else if p <= clusters * CS then clusters * CS - p else 0
  }

  /** The clusters suffice for the write, and no cluster is taken for nothing. */
  predicate Suffices(size: nat, p: nat, n: nat, clusters: nat) {
    if n == 0 then !NeedsCluster(size, p) else Reach(size, p, n, clusters) == Goal(size, p, n)
  }

  /** A chunk of n bytes in one of the clusters brings a write of m bytes nearer to what it can reach; it is all that
      can be reached if the chunk ends the last cluster there can be, behind the size. */
  lemma ReachStep(size: nat, p: nat, m: nat, n: nat, clusters: nat)
    requires 0 < n <= m && n <= CS - p % CS && (n < m ==> n == CS - p % CS) && p / CS < clusters
    ensures n <= Reach(size, p, m, clusters)
    ensures n == m || p + n == size ==> n == Reach(size, p, m, clusters) == Goal(size, p, m)
    ensures n < m && p + n != size ==> Reach(size, p + n, m - n, clusters) == Reach(size, p, m, clusters) - n
    ensures n < m && p + n > size && clusters == p / CS + 1 ==> n == Reach(size, p, m, clusters) < Goal(size, p, m)
  {
    GoalStep(size, p, m, n);
    ChunkEnds(p, n);
  }

  ghost predicate FetchedAt(data: seq<byte>, ch: seq<nat>, p: nat, out: seq<byte>, i: nat)
    requires p + |out| <= |ch| * CS && i < |out|
  {
    Place(ch, p + i) < |data| && out[i] == data[Place(ch, p + i)]
  }

  /** out holds the bytes of a chain from position p on. */
  ghost predicate Fetched(data: seq<byte>, ch: seq<nat>, p: nat, out: seq<byte>) {
    && p + |out| <= |ch| * CS
    && forall i: nat {:trigger FetchedAt(data, ch, p, out, i)} :: i < |out| ==> FetchedAt(data, ch, p, out, i)
  }

  lemma FetchMore(data: seq<byte>, ch: seq<nat>, p: nat, out: seq<byte>, n: nat)
    requires Fetched(data, ch, p, out) && (p + |out|) / CS < |ch| && n <= CS - (p + |out|) % CS
    requires ch[(p + |out|) / CS] * CS + CS <= |data|
    ensures var at := Place(ch, p + |out|); Fetched(data, ch, p, out + data[at..at + n])
  {
    var at := Place(ch, p + |out|);
    var out' := out + data[at..at + n];
    assert p + |out'| <= ((p + |out|) / CS + 1) * CS;
    forall i: nat | i < |out'| ensures FetchedAt(data, ch, p, out', i) {
      if i < |out| {
        assert FetchedAt(data, ch, p, out, i);
      } else {
        assert (p + i) / CS == (p + |out|) / CS && (p + i) % CS == (p + |out|) % CS + (i - |out|);
      }
    }
  }

  /** The clusters of a chain have fewer bytes than 32 bits can count. */
  lemma ChainShort(tbl: seq<nat>, ch: seq<nat>)
    requires |tbl| == COUNT && Chain(tbl, ch)
    ensures |ch| * CS < WORD32
  {
    forall i | 0 <= i < |ch| ensures ch[i] < COUNT {
      assert Link(tbl, ch, i);
    }
    Pigeonhole(ch, COUNT);
  }

  const WORD32 := 0x1_0000_0000

  /** A read of n bytes at p does not notice the end of the file: the position asked for wraps to one inside it. */
  predicate Overreads(size: nat, p: nat, n: nat) {
    WORD32 <= n + p <= size + WORD32
  }

  /** How many bytes a read of n bytes at p returns: those that are there, or in the case above all that the clusters of
      the file hold. */
  function ReadCount(size: nat, p: nat, n: nat): nat
    requires p < size
  {
    if Overreads(size, p, n) then Clusters(size) * CS - p else if n > size - p then size - p else n
  }

  /** A read goes beyond the end of the file exactly if the position asked for wraps to one inside the file, and the last
      cluster is not full. */
  lemma BeyondEnd(size: nat, p: nat, n: nat)
    requires p < size
    ensures p + ReadCount(size, p, n) > size <==> Overreads(size, p, n) && size % CS != 0
  {
    assert size == size / CS * CS + size % CS;
  }

  /** A part of what is fetched is fetched. */
  lemma FetchedPart(data: seq<byte>, ch: seq<nat>, p: nat, out: seq<byte>, m: nat)
    requires Fetched(data, ch, p, out) && m <= |out|
    ensures Fetched(data, ch, p, out[..m])
  {
    forall i: nat | i < m ensures FetchedAt(data, ch, p, out[..m], i) {
      assert FetchedAt(data, ch, p, out, i);
    }
  }

  /** What is fetched inside the content is the content. */
  lemma FetchedContent(data: seq<byte>, ch: seq<nat>, content: seq<byte>, p: nat, out: seq<byte>)
    requires Stored(data, ch, content) && Fetched(data, ch, p, out) && p + |out| <= |content|
    ensures out == content[p..p + |out|]
  {
    forall i: nat | i < |out| ensures out[i] == content[p + i] {
      assert FetchedAt(data, ch, p, out, i) && ByteAt(data, ch, content, p + i);
    }
  }

  /** A free cluster put behind the chain of file h leaves everything else in order. */
  lemma GrownOk(fds: seq<Fd>, tbl: seq<nat>, data: seq<byte>, recs: seq<Rec>, h: nat, prev: nat, c: nat)
    requires Sound(tbl, data, recs) && |fds| == FILES && h < FILES && Described(fds, recs, tbl, h) && c < COUNT
             && tbl[c] == FREE
    requires if recs[h].chain == [] then prev >= COUNT else prev == recs[h].chain[|recs[h].chain| - 1]
    ensures recs[h].chain != [] ==> prev < COUNT
    ensures var tbl', recs' := Extended(tbl, recs[h].chain, c), recs[h := recs[h].(chain := recs[h].chain + [c])];
            Sound(tbl', data, recs') && Described(fds, recs', tbl', h) && FreeCount(tbl') == FreeCount(tbl) - 1
  {
    ExtendSound(tbl, data, recs, h, c);
    ExtendedTaken(tbl, data, recs, h, prev, c);
    var tbl', recs' := Extended(tbl, recs[h].chain, c), recs[h := recs[h].(chain := recs[h].chain + [c])];
    DescribedKept(fds, data, recs, recs', tbl, tbl', h, prev, c);
  }
}
