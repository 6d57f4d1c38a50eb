/**
 Cluster chains over a file allocation table seen as a plain array of entries: an entry is
 0 for a free cluster, the number of the next cluster, or a value beyond the table for the
 last cluster of a chain.
 */
module FatChains {

  predicate InTable(fat: seq<nat>, c: nat) {
    2 <= c < |fat|
  }

  /** ch lists the clusters of a chain from first to last. */
  ghost predicate IsChain(fat: seq<nat>, ch: seq<nat>) {
    && |ch| > 0
    && (forall i :: 0 <= i < |ch| ==> InTable(fat, ch[i]))
    && (forall i :: 0 <= i < |ch| - 1 ==> fat[ch[i]] == ch[i + 1])
    && fat[ch[|ch| - 1]] >= |fat|
  }

  ghost predicate Disjoint(a: seq<nat>, b: seq<nat>) {
    forall i, j :: 0 <= i < |a| && 0 <= j < |b| ==> a[i] != b[j]
  }

  /** A table together with the chains that live in it. */
  ghost predicate WellFormed(fat: seq<nat>, chains: seq<seq<nat>>) {
    && (forall k :: 0 <= k < |chains| ==> IsChain(fat, chains[k]))
    && (forall k, l :: 0 <= k < l < |chains| ==> Disjoint(chains[k], chains[l]))
  }

  // ---- chains are simple paths, and are fixed by their first cluster ----

  lemma {:induction false} ShiftedRepeat(fat: seq<nat>, ch: seq<nat>, i: nat, j: nat, k: nat)
    requires IsChain(fat, ch) && i < j && j + k < |ch| && ch[i] == ch[j]
    ensures ch[i + k] == ch[j + k]
    decreases k
  {
    if k > 0 {
      ShiftedRepeat(fat, ch, i, j, k - 1);
      assert fat[ch[i + k - 1]] == ch[i + k];
      assert fat[ch[j + k - 1]] == ch[j + k];
    }
  }

  /** A path that reaches an end-of-chain mark never visits a cluster twice. */
  lemma ChainIsSimple(fat: seq<nat>, ch: seq<nat>)
    requires IsChain(fat, ch)
    ensures forall i, j :: 0 <= i < j < |ch| ==> ch[i] != ch[j]
  {
    forall i, j | 0 <= i < j < |ch| ensures ch[i] != ch[j] {
      var k := |ch| - 1 - j;
      assert InTable(fat, ch[i + k + 1]) && fat[ch[i + k]] == ch[i + k + 1];
      if ch[i] == ch[j] {
        ShiftedRepeat(fat, ch, i, j, k);
      }
    }
  }

  /** The first cluster determines the whole chain. */
  lemma {:induction false} ChainIsUnique(fat: seq<nat>, a: seq<nat>, b: seq<nat>)
    requires IsChain(fat, a) && IsChain(fat, b) && a[0] == b[0]
    ensures a == b
    decreases |a|
  {
    assert |b| > 1 ==> InTable(fat, b[1]);
    if |a| > 1 {
      assert InTable(fat, a[1]);
      assert |b| > 1 && b[1] == a[1];
      assert IsChain(fat, a[1..]) && IsChain(fat, b[1..]);
      ChainIsUnique(fat, a[1..], b[1..]);
      assert a == [a[0]] + a[1..];
      assert b == [b[0]] + b[1..];
    }
  }

  /** The cluster k links behind c. */
  function Follow(fat: seq<nat>, c: nat, k: nat): nat {
    if k == 0 then c else var p := Follow(fat, c, k - 1); if p < |fat| then fat[p] else p
  }

  /** A chain is what the links lead to. */
  lemma {:induction false} ChainFollows(fat: seq<nat>, ch: seq<nat>, k: nat)
    requires IsChain(fat, ch) && k < |ch|
    ensures Follow(fat, ch[0], k) == ch[k]
    decreases k
  {
    if k > 0 {
      ChainFollows(fat, ch, k - 1);
      assert InTable(fat, ch[k - 1]);
    }
  }

  /** Distinct chains that share no cluster of a third party keep their links when only other entries change. */
  lemma ChainKept(fat: seq<nat>, fat': seq<nat>, ch: seq<nat>)
    requires IsChain(fat, ch) && |fat'| == |fat|
    requires forall i :: 0 <= i < |ch| ==> fat'[ch[i]] == fat[ch[i]]
    ensures IsChain(fat', ch)
  {
    assert forall i :: 0 <= i < |ch| ==> InTable(fat, ch[i]) ==> InTable(fat', ch[i]);
  }

  // ---- stretching and creating chains ----

  /** The table after cluster ncl has been taken and, unless clst is 0, linked behind clst. */
  function Linked(fat: seq<nat>, clst: nat, ncl: nat, eoc: nat): seq<nat>
    requires ncl < |fat| && clst < |fat|
  {
    if clst == 0 then fat[ncl := eoc] else fat[ncl := eoc][clst := ncl]
  }

  lemma StretchChain(fat: seq<nat>, ch: seq<nat>, ncl: nat, eoc: nat)
    requires IsChain(fat, ch) && InTable(fat, ncl) && fat[ncl] == 0 && eoc >= |fat|
    ensures IsChain(Linked(fat, ch[|ch| - 1], ncl, eoc), ch + [ncl])
    ensures forall i :: 0 <= i < |ch| ==> ch[i] != ncl
  {
    var last := ch[|ch| - 1];
    var fat' := Linked(fat, last, ncl, eoc);
    ChainIsSimple(fat, ch);
    NotFree(fat, ch);
    var ch' := ch + [ncl];
    forall i | 0 <= i < |ch'| - 1 ensures fat'[ch'[i]] == ch'[i + 1] {
      if i < |ch| - 1 {
        assert ch[i] != last && ch[i] != ncl;
      }
    }
    assert forall i :: 0 <= i < |ch| ==> InTable(fat, ch[i]);
  }

  /** A cluster of a chain is never free. */
  lemma NotFree(fat: seq<nat>, ch: seq<nat>)
    requires IsChain(fat, ch)
    ensures forall i :: 0 <= i < |ch| ==> fat[ch[i]] >= 2
  {
    forall i | 0 <= i < |ch| ensures fat[ch[i]] >= 2 {
      if i < |ch| - 1 {
        assert InTable(fat, ch[i + 1]);
      } else {
        assert InTable(fat, ch[i]);
      }
    }
  }

  /** Taking a free cluster leaves every chain that does not hold clst as it was. */
  lemma LinkedKeepsOthers(fat: seq<nat>, other: seq<nat>, clst: nat, ncl: nat, eoc: nat)
    requires IsChain(fat, other) && InTable(fat, ncl) && fat[ncl] == 0 && clst < |fat|
    requires clst == 0 || clst !in other
    ensures IsChain(Linked(fat, clst, ncl, eoc), other)
    ensures ncl !in other
  {
    NotFree(fat, other);
    assert forall i :: 0 <= i < |other| ==> InTable(fat, other[i]);
    ChainKept(fat, Linked(fat, clst, ncl, eoc), other);
  }

  /** Stretching one chain of a well-formed table by a free cluster keeps the table well formed. */
  lemma StretchKeepsWellFormed(fat: seq<nat>, chains: seq<seq<nat>>, k: nat, ncl: nat, eoc: nat)
    requires WellFormed(fat, chains) && k < |chains|
    requires InTable(fat, ncl) && fat[ncl] == 0 && eoc >= |fat|
    ensures var ch := chains[k];
            WellFormed(Linked(fat, ch[|ch| - 1], ncl, eoc), chains[k := ch + [ncl]])
  {
    var ch := chains[k];
    var last := ch[|ch| - 1];
    var fat' := Linked(fat, last, ncl, eoc);
    var chains' := chains[k := ch + [ncl]];
    StretchChain(fat, ch, ncl, eoc);
    forall l | 0 <= l < |chains| && l != k
      ensures IsChain(fat', chains[l]) && ncl !in chains[l] && Disjoint(ch, chains[l]) && Disjoint(chains[l], ch)
    {
      assert Disjoint(chains[if l < k then l else k], chains[if l < k then k else l]);
      assert last !in chains[l];
      LinkedKeepsOthers(fat, chains[l], last, ncl, eoc);
    }
    forall l, m | 0 <= l < m < |chains'| ensures Disjoint(chains'[l], chains'[m]) {
      assert Disjoint(chains[l], chains[m]);
    }
  }

  /** So does starting a new chain with a free cluster. */
  lemma NewKeepsWellFormed(fat: seq<nat>, chains: seq<seq<nat>>, ncl: nat, eoc: nat)
    requires WellFormed(fat, chains) && InTable(fat, ncl) && fat[ncl] == 0 && eoc >= |fat|
    ensures WellFormed(fat[ncl := eoc], chains + [[ncl]])
  {
    var fat' := fat[ncl := eoc];
    var chains' := chains + [[ncl]];
    assert IsChain(fat', [ncl]);
    forall l | 0 <= l < |chains| ensures IsChain(fat', chains'[l]) && ncl !in chains'[l] {
      LinkedKeepsOthers(fat, chains[l], 0, ncl, eoc);
    }
    forall l, m | 0 <= l < m < |chains'| ensures Disjoint(chains'[l], chains'[m]) {
      if m < |chains| {
        assert Disjoint(chains[l], chains[m]);
      }
    }
  }

  // ---- removing a chain ----

  /** Number of entries that are not 0. */
  function InUse(fat: seq<nat>): nat {
    if |fat| == 0 then 0 else InUse(fat[..|fat| - 1]) + if fat[|fat| - 1] != 0 then 1 else 0
  }

  lemma {:induction false} InUseStep(fat: seq<nat>, c: nat, v: nat)
    requires c < |fat|
    ensures InUse(fat[c := v]) == InUse(fat) - (if fat[c] != 0 then 1 else 0) + (if v != 0 then 1 else 0)
    decreases |fat|
  {
    var n := |fat| - 1;
    if c == n {
      assert fat[c := v][..n] == fat[..n];
    } else {
      assert fat[c := v][..n] == fat[..n][c := v];
      InUseStep(fat[..n], c, v);
    }
  }

  /** The table after links have been followed from c, freeing each cluster on the way. */
  function Removed(fat: seq<nat>, c: nat): (r: seq<nat>)
    ensures |r| == |fat|
    decreases InUse(fat)
  {
    if !InTable(fat, c) || fat[c] == 0 || fat[c] == 1 then fat
    else
      InUseStep(fat, c, 0);
      Removed(fat[c := 0], fat[c])
  }

  /** Following links from c ends at an entry holding the reserved value 1. */
  predicate EndsAtOne(fat: seq<nat>, c: nat)
    decreases InUse(fat)
  {
    InTable(fat, c) && fat[c] != 0 &&
    (fat[c] == 1 || (InUseStep(fat, c, 0); EndsAtOne(fat[c := 0], fat[c])))
  }

  /** Exactly the clusters of ch are free in fat', everything else is as in fat. */
  ghost predicate FreedExactly(fat: seq<nat>, fat': seq<nat>, ch: seq<nat>) {
    && |fat'| == |fat|
    && forall c :: 0 <= c < |fat| ==> fat'[c] == if c in ch then 0 else fat[c]
  }

  /** Removing a chain frees its clusters and nothing else. */
  lemma {:induction false} RemovedChain(fat: seq<nat>, ch: seq<nat>)
    requires IsChain(fat, ch)
    ensures FreedExactly(fat, Removed(fat, ch[0]), ch)
    ensures !EndsAtOne(fat, ch[0])
    decreases |ch|
  {
    var c := ch[0];
    NotFree(fat, ch);
    assert InTable(fat, c) && fat[c] >= 2;
    if |ch| == 1 {
      assert Removed(fat, c) == Removed(fat[c := 0], fat[c]) == fat[c := 0];
      assert !EndsAtOne(fat[c := 0], fat[c]);
    } else {
      ChainIsSimple(fat, ch);
      var rest := ch[1..];
      assert ch == [c] + rest;
      assert IsChain(fat, rest);
      ChainKept(fat, fat[c := 0], rest);
      RemovedChain(fat[c := 0], rest);
    }
  }

  /** The table remove_chain leaves: the predecessor, if any, becomes the last cluster. */
  function Cut(fat: seq<nat>, clst: nat, pclst: nat, eoc: nat): (r: seq<nat>)
    requires pclst < |fat|
    ensures |r| == |fat|
  {
    Removed(Marked(fat, pclst, eoc), clst)
  }

  /** The table with entry pclst, unless that is 0, turned into an end of chain. */
  function Marked(fat: seq<nat>, pclst: nat, eoc: nat): (r: seq<nat>)
    requires pclst < |fat|
    ensures |r| == |fat|
  {
    if pclst != 0 then fat[pclst := eoc] else fat
  }

  /** Cutting a chain behind its first p > 0 clusters frees exactly the rest. */
  lemma CutChain(fat: seq<nat>, ch: seq<nat>, p: nat, eoc: nat)
    requires IsChain(fat, ch) && 0 < p < |ch| && eoc >= |fat|
    ensures var fat' := Cut(fat, ch[p], ch[p - 1], eoc);
            && IsChain(fat', ch[..p])
            && FreedExactly(fat[ch[p - 1] := eoc], fat', ch[p..])
            && !EndsAtOne(fat[ch[p - 1] := eoc], ch[p])
  {
    var pc := ch[p - 1];
    var mid := fat[pc := eoc];
    ChainIsSimple(fat, ch);
    var tail := ch[p..];
    assert IsChain(fat, tail);
    ChainKept(fat, mid, tail);
    RemovedChain(mid, tail);
    var fat' := Cut(fat, ch[p], pc, eoc);
    var head := ch[..p];
    forall i | 0 <= i < p ensures head[i] !in tail && fat'[head[i]] == if i == p - 1 then eoc else fat[ch[i]] {
      assert InTable(fat, ch[i]);
    }
    assert IsChain(fat', head);
  }

  /** Cutting a chain behind its first n clusters, even behind none, changes entries of that chain only. */
  lemma CutAnywhere(fat: seq<nat>, ch: seq<nat>, n: nat, eoc: nat)
    requires IsChain(fat, ch) && n < |ch| && eoc >= |fat|
    ensures InTable(fat, ch[n]) && (n > 0 ==> InTable(fat, ch[n - 1]))
    ensures var p := if n == 0 then 0 else ch[n - 1];
            var fat' := Cut(fat, ch[n], p, eoc);
            && (n > 0 ==> IsChain(fat', ch[..n]))
            && (forall c :: 0 <= c < |fat| && c !in ch ==> fat'[c] == fat[c])
            && !EndsAtOne(Marked(fat, p, eoc), ch[n])
  {
    if n == 0 {
      RemovedChain(fat, ch);
    } else {
      CutChain(fat, ch, n, eoc);
      assert forall c :: c in ch[n..] ==> c in ch;
    }
  }

  ghost predicate AllFree(fat: seq<nat>, cs: seq<nat>) {
    forall c :: c in cs ==> c < |fat| && fat[c] == 0
  }

  /** The clusters cut off are free. */
  lemma FreedTail(fat: seq<nat>, ch: seq<nat>, n: nat, eoc: nat)
    requires IsChain(fat, ch) && n < |ch| && eoc >= |fat|
    ensures InTable(fat, ch[n]) && (n > 0 ==> InTable(fat, ch[n - 1]))
    ensures AllFree(Cut(fat, ch[n], if n == 0 then 0 else ch[n - 1], eoc), ch[n..])
  {
    assert forall i :: 0 <= i < |ch| ==> InTable(fat, ch[i]);
    if n == 0 {
      RemovedChain(fat, ch);
      assert ch[n..] == ch;
    } else {
      CutChain(fat, ch, n, eoc);
    }
    forall c | c in ch[n..] ensures InTable(fat, c) {
      var i :| n <= i < |ch| && ch[i] == c;
      assert InTable(fat, ch[i]);
    }
  }

  /** Cutting or dropping a chain leaves every disjoint chain as it was. */
  lemma FreedKeepsOthers(fat: seq<nat>, fat': seq<nat>, gone: seq<nat>, other: seq<nat>)
    requires IsChain(fat, other) && FreedExactly(fat, fat', gone) && Disjoint(gone, other)
    ensures IsChain(fat', other)
  {
    forall i | 0 <= i < |other| ensures fat'[other[i]] == fat[other[i]] {
      assert InTable(fat, other[i]);
      assert other[i] !in gone;
    }
    ChainKept(fat, fat', other);
  }

  /** Cutting one chain of a well-formed table keeps it well formed. */
  lemma CutKeepsWellFormed(fat: seq<nat>, chains: seq<seq<nat>>, k: nat, p: nat, eoc: nat)
    requires WellFormed(fat, chains) && k < |chains| && 0 < p < |chains[k]| && eoc >= |fat|
    ensures WellFormed(Cut(fat, chains[k][p], chains[k][p - 1], eoc), chains[k := chains[k][..p]])
  {
    var ch := chains[k];
    var fat' := Cut(fat, ch[p], ch[p - 1], eoc);
    var chains' := chains[k := ch[..p]];
    CutChain(fat, ch, p, eoc);
    forall l | 0 <= l < |chains| && l != k ensures IsChain(fat', chains[l]) {
      assert Disjoint(chains[if l < k then l else k], chains[if l < k then k else l]);
      CutKeepsOther(fat, ch, p, eoc, chains[l]);
    }
    forall l, m | 0 <= l < m < |chains'| ensures Disjoint(chains'[l], chains'[m]) {
      assert Disjoint(chains[l], chains[m]);
    }
  }

  lemma CutKeepsOther(fat: seq<nat>, ch: seq<nat>, p: nat, eoc: nat, other: seq<nat>)
    requires IsChain(fat, ch) && IsChain(fat, other) && 0 < p < |ch| && eoc >= |fat|
    requires Disjoint(ch, other) || Disjoint(other, ch)
    ensures IsChain(Cut(fat, ch[p], ch[p - 1], eoc), other)
  {
    var mid := fat[ch[p - 1] := eoc];
    CutChain(fat, ch, p, eoc);
    ChainKept(fat, mid, other);
    FreedKeepsOthers(mid, Cut(fat, ch[p], ch[p - 1], eoc), ch[p..], other);
  }

  /** So does dropping a whole chain. */
  lemma DropKeepsWellFormed(fat: seq<nat>, chains: seq<seq<nat>>, k: nat, eoc: nat)
    requires WellFormed(fat, chains) && k < |chains|
    ensures WellFormed(Cut(fat, chains[k][0], 0, eoc), chains[..k] + chains[k + 1..])
  {
    var ch := chains[k];
    var fat' := Cut(fat, ch[0], 0, eoc);
    var chains' := chains[..k] + chains[k + 1..];
    RemovedChain(fat, ch);
    forall l | 0 <= l < |chains'| ensures IsChain(fat', chains'[l]) {
      var l' := if l < k then l else l + 1;
      assert Disjoint(chains[if l' < k then l' else k], chains[if l' < k then k else l']);
      FreedKeepsOthers(fat, fat', ch, chains[l']);
    }
    forall l, m | 0 <= l < m < |chains'| ensures Disjoint(chains'[l], chains'[m]) {
      assert Disjoint(chains[if l < k then l else l + 1], chains[if m < k then m else m + 1]);
    }
  }

  // ---- counting free clusters ----

  /** No entry lo .. hi-1 is 0. */
  ghost predicate NoneFree(fat: seq<nat>, lo: nat, hi: nat)
    requires hi <= |fat|
  {
    forall c :: lo <= c < hi ==> fat[c] != 0
  }

  /** Number of entries lo .. hi-1 that are 0. */
  function Zeros(fat: seq<nat>, lo: nat, hi: nat): (n: nat)
    requires lo <= hi <= |fat|
    ensures n <= hi - lo
    decreases hi
  {
    if lo == hi then 0 else Zeros(fat, lo, hi - 1) + if fat[hi - 1] == 0 then 1 else 0
  }

  /** Number of free clusters. */
  function FreeClusters(fat: seq<nat>): nat
    requires |fat| >= 2
  {
    Zeros(fat, 2, |fat|)
  }

  lemma {:induction false} ZerosStep(fat: seq<nat>, lo: nat, hi: nat, c: nat, v: nat)
    requires lo <= c < |fat| && lo <= hi <= |fat|
    ensures Zeros(fat[c := v], lo, hi) ==
            Zeros(fat, lo, hi) + if c < hi then (if v == 0 then 1 else 0) - (if fat[c] == 0 then 1 else 0) else 0
    decreases hi
  {
    if lo < hi {
      ZerosStep(fat, lo, hi - 1, c, v);
    }
  }

  /** The entries lo .. hi-1 that are 0. */
  ghost function ZeroSet(fat: seq<nat>, lo: nat, hi: nat): set<nat>
    requires hi <= |fat|
  {
    set c: nat | lo <= c < hi && fat[c] == 0
  }

  /** The count is their number. */
  lemma {:induction false} ZerosCount(fat: seq<nat>, lo: nat, hi: nat)
    requires lo <= hi <= |fat|
    ensures Zeros(fat, lo, hi) == |ZeroSet(fat, lo, hi)|
    decreases hi
  {
    if lo < hi {
      ZerosCount(fat, lo, hi - 1);
      assert ZeroSet(fat, lo, hi) == ZeroSet(fat, lo, hi - 1) + if fat[hi - 1] == 0 then {hi - 1} else {};
    } else {
      assert ZeroSet(fat, lo, hi) == {};
    }
  }

  /** The count is 0 exactly when no cluster is free. */
  lemma {:induction false} ZerosNone(fat: seq<nat>, lo: nat, hi: nat)
    requires lo <= hi <= |fat|
    ensures Zeros(fat, lo, hi) == 0 <==> NoneFree(fat, lo, hi)
    decreases hi
  {
    if lo < hi {
      ZerosNone(fat, lo, hi - 1);
    }
  }

  lemma {:induction false} ZerosSplit(fat: seq<nat>, lo: nat, mid: nat, hi: nat)
    requires lo <= mid <= hi <= |fat|
    ensures Zeros(fat, lo, hi) == Zeros(fat, lo, mid) + Zeros(fat, mid, hi)
    decreases hi
  {
    if mid < hi {
      ZerosSplit(fat, lo, mid, hi - 1);
    }
  }

  // ---- the search for a free cluster ----

  /** Outcome of the search that starts at scl and has come to ncl: a free cluster, 1 if it runs into
      an entry holding the reserved value 1, or 0 if it comes round to scl. */
  function SearchFrom(fat: seq<nat>, scl: nat, ncl: nat): nat
    requires 1 <= scl < |fat| && 1 <= ncl < |fat| && |fat| >= 3
    decreases if ncl >= scl then 2 * |fat| - ncl else scl - ncl
  {
    var next := if ncl + 1 >= |fat| then 2 else ncl + 1;
    if ncl + 1 >= |fat| && next > scl then 0
    else if fat[next] == 0 then next
    else if fat[next] == 1 then 1
    else if next == scl then 0
    else SearchFrom(fat, scl, next)
  }

  /** Going up from scl and round, c is the first free cluster. */
  ghost predicate Nearest(fat: seq<nat>, scl: nat, c: nat) {
    && InTable(fat, c) && fat[c] == 0
    && if c > scl then NoneFree(fat, scl + 1, c) else NoneFree(fat, scl + 1, |fat|) && NoneFree(fat, 2, c)
  }

  predicate EndOfChain(fat: seq<nat>, c: nat) {
    InTable(fat, c) && fat[c] >= |fat|
  }

  ghost predicate HasOne(fat: seq<nat>) {
    exists c: nat :: InTable(fat, c) && fat[c] == 1
  }

  /** r is the outcome of a complete search: a free cluster if there is one. */
  ghost predicate FreeOutcome(fat: seq<nat>, r: nat) {
    || (r == 0 && NoneFree(fat, 2, |fat|))
    || (r == 1 && HasOne(fat))
    || (InTable(fat, r) && fat[r] == 0)
  }

  /** The search yields the first free cluster behind its start, if there is one. */
  lemma {:induction false} SearchMeans(fat: seq<nat>, scl: nat, ncl: nat)
    requires 1 <= scl < |fat| && 1 <= ncl < |fat| && |fat| >= 3
    requires ncl >= scl ==> NoneFree(fat, scl + 1, ncl + 1)
    requires ncl < scl ==> NoneFree(fat, 2, ncl + 1) && NoneFree(fat, scl + 1, |fat|)
    ensures FreeOutcome(fat, SearchFrom(fat, scl, ncl))
    ensures SearchFrom(fat, scl, ncl) >= 2 ==> Nearest(fat, scl, SearchFrom(fat, scl, ncl))
    decreases if ncl >= scl then 2 * |fat| - ncl else scl - ncl
  {
    var next := if ncl + 1 >= |fat| then 2 else ncl + 1;
    if ncl + 1 >= |fat| && next > scl {
    } else if fat[next] == 1 {
      assert InTable(fat, next);
    } else if fat[next] != 0 && next != scl {
      SearchMeans(fat, scl, next);
    }
  }

  /** Taking a free cluster lowers the number of free clusters by one. */
  lemma TakenCount(fat: seq<nat>, clst: nat, ncl: nat, eoc: nat)
    requires InTable(fat, ncl) && fat[ncl] == 0 && eoc != 0 && (clst == 0 || EndOfChain(fat, clst))
    ensures FreeClusters(Linked(fat, clst, ncl, eoc)) == FreeClusters(fat) - 1
  {
    ZerosStep(fat, 2, |fat|, ncl, eoc);
    if clst != 0 {
      ZerosStep(fat[ncl := eoc], 2, |fat|, clst, ncl);
    }
  }

  /** Removing a chain raises it by the length of the chain. */
  lemma {:induction false} RemovedCount(fat: seq<nat>, ch: seq<nat>)
    requires IsChain(fat, ch)
    ensures FreeClusters(Removed(fat, ch[0])) == FreeClusters(fat) + |ch|
    decreases |ch|
  {
    var c := ch[0];
    NotFree(fat, ch);
    assert InTable(fat, c) && fat[c] >= 2;
    ZerosStep(fat, 2, |fat|, c, 0);
    if |ch| == 1 {
      assert Removed(fat, c) == Removed(fat[c := 0], fat[c]) == fat[c := 0];
    } else {
      ChainIsSimple(fat, ch);
      var rest := ch[1..];
      assert IsChain(fat, rest);
      ChainKept(fat, fat[c := 0], rest);
      RemovedCount(fat[c := 0], rest);
    }
  }

  /** Cutting a chain behind its first n clusters raises it by the number of clusters cut off. */
  lemma CutCount(fat: seq<nat>, ch: seq<nat>, n: nat, eoc: nat)
    requires IsChain(fat, ch) && n < |ch| && eoc >= |fat|
    ensures n > 0 ==> InTable(fat, ch[n - 1])
    ensures FreeClusters(Cut(fat, ch[n], if n == 0 then 0 else ch[n - 1], eoc)) == FreeClusters(fat) + |ch| - n
  {
    if n == 0 {
      RemovedCount(fat, ch);
    } else {
      var pc, tail := ch[n - 1], ch[n..];
      ChainIsSimple(fat, ch);
      NotFree(fat, ch);
      assert InTable(fat, pc) && IsChain(fat, tail);
      ChainKept(fat, fat[pc := eoc], tail);
      RemovedCount(fat[pc := eoc], tail);
      ZerosStep(fat, 2, |fat|, pc, eoc);
    }
  }

  /** Neither taking nor freeing clusters makes an entry hold 1. */
  lemma LinkedHasNoNewOne(fat: seq<nat>, clst: nat, ncl: nat, eoc: nat)
    requires InTable(fat, ncl) && clst < |fat| && eoc >= |fat|
    ensures HasOne(Linked(fat, clst, ncl, eoc)) ==> HasOne(fat)
  {
    var fat' := Linked(fat, clst, ncl, eoc);
    if c: nat :| InTable(fat', c) && fat'[c] == 1 {
      assert InTable(fat, c) && fat[c] == 1;
    }
  }

  lemma {:induction false} RemovedHasNoNewOne(fat: seq<nat>, c: nat)
    ensures HasOne(Removed(fat, c)) ==> HasOne(fat)
    decreases InUse(fat)
  {
    if InTable(fat, c) && fat[c] >= 2 {
      InUseStep(fat, c, 0);
      var fat' := fat[c := 0];
      RemovedHasNoNewOne(fat', fat[c]);
      if d: nat :| InTable(fat', d) && fat'[d] == 1 {
        assert InTable(fat, d) && fat[d] == 1;
      }
    }
  }

  lemma CutHasNoNewOne(fat: seq<nat>, clst: nat, pclst: nat, eoc: nat)
    requires pclst < |fat| && eoc != 1
    ensures HasOne(Cut(fat, clst, pclst, eoc)) ==> HasOne(fat)
  {
    var fat' := Marked(fat, pclst, eoc);
    RemovedHasNoNewOne(fat', clst);
    if d: nat :| InTable(fat', d) && fat'[d] == 1 {
      assert InTable(fat, d) && fat[d] == 1;
    }
  }
}
