/**
 The state of the heap, and what moving, splitting and merging blocks does to it.
 */
module HeapState {
  import opened Hiding
  import opened ByteSeqs
  import opened HeapLists
  import opened HeapLayout

  /** The blocks of the two lists are all blocks. */
  ghost predicate Owns(free: seq<nat>, used: seq<nat>, order: seq<nat>) {
    forall a :: a in free || a in used <==> a in order
  }

  /** Two lists that share no block. */
  ghost predicate Lists(next: Links, prev: Links, h: nat, l: seq<nat>, k: nat, m: seq<nat>) {
    && IsList(next, prev, h, l) && IsList(next, prev, k, m)
    && forall a :: a in l ==> a !in m
  }

  /** The maps agree on x. */
  ghost predicate Same(m: map<nat, nat>, m': map<nat, nat>, x: nat) {
    (x in m <==> x in m') && (x in m && x in m' ==> m'[x] == m[x])
  }

  /** Only fields of the listed descriptors are written. */
  ghost predicate Within(m: map<nat, nat>, m': map<nat, nat>, l: seq<nat>) {
    forall x :: x !in l ==> Same(m, m', x)
  }

  /** The block at position k of the first list is unlinked. */
  lemma TakeOut(next: Links, prev: Links, l: seq<nat>, k: nat, h: nat, m: seq<nat>)
    requires k < |l| && Lists(next, prev, l[0], l, h, m)
    ensures Lists(NextWithout(next, l, k), PrevWithout(prev, l, k), At(Without(l, k), 0), Without(l, k), h, m)
    ensures l[k] !in Without(l, k) && l[k] !in m
    ensures Within(next, NextWithout(next, l, k), l) && Within(prev, PrevWithout(prev, l, k), l)
  {
    Unlinked(next, prev, l, k);
    UnlinkedOther(next, prev, l, k, h, m);
    WithoutMembers(l, k);
  }

  /** The first list with a block put in: the only one, or behind the head. */
  function Put(l: seq<nat>, a: nat): (r: seq<nat>)
    ensures forall x :: x in r <==> x in l || x == a
  {
    if l == [] then [a] else Inserted(l, a)
  }

  /** A block in neither list is put into the first. */
  lemma PutIn(next: Links, prev: Links, next': Links, prev': Links, l: seq<nat>, h: nat, m: seq<nat>, a: nat)
    requires Lists(next, prev, At(l, 0), l, h, m) && a !in l && a !in m && a != 0
    requires next' == if l == [] then next[a := 0] else next[a := At(l, 1)][l[0] := a]
    requires prev' == if l == [] then prev[a := 0] else
                        if At(l, 1) != 0 then prev[a := l[0]][At(l, 1) := a] else prev[a := l[0]]
    ensures Lists(next', prev', At(Put(l, a), 0), Put(l, a), h, m)
    ensures Within(next, next', Put(l, a)) && Within(prev, prev', Put(l, a))
  {
    if l == [] {
      assert Node(next', prev', [a], 0);
    } else {
      LinkedAfterHead(next, prev, next', prev', l, a);
    }
    forall x | x in m ensures x in next && x in prev && x !in l {
      var i: nat :| i < |m| && m[i] == x;
      assert Node(next, prev, m, i);
    }
    ListKept(next, prev, next', prev', h, m);
  }

  /** A block in neither list may have any links. */
  lemma Isolated(next: Links, prev: Links, h: nat, l: seq<nat>, k: nat, m: seq<nat>, b: nat)
    requires Lists(next, prev, h, l, k, m) && b !in l && b !in m
    ensures Lists(next[b := 0], prev[b := 0], h, l, k, m)
    ensures Within(next, next[b := 0], [b]) && Within(prev, prev[b := 0], [b])
  {
    forall i: nat | i < |l| ensures l[i] in next && l[i] in prev {
      assert Node(next, prev, l, i);
    }
    forall i: nat | i < |m| ensures m[i] in next && m[i] in prev {
      assert Node(next, prev, m, i);
    }
    ListKept(next, prev, next[b := 0], prev[b := 0], h, l);
    ListKept(next, prev, next[b := 0], prev[b := 0], k, m);
  }

  datatype State = State(
    base: nat,        // first address of the arena
    arena: nat,       // its size
    next: Links,
    prev: Links,
    size: Sizes,
    freeMem: nat,     // first free block, 0 if none
    usedMem: nat,     // first used block, 0 if none
    free: seq<nat>,   // the free list
    used: seq<nat>,   // the used list
    order: seq<nat>)  // all blocks by address
  {
    /** Every block of the arena is in exactly one of the lists, which are well formed, and the blocks fill it.
        The parts behind Unfold count only where Unfold is mentioned. */
    ghost predicate Ok() {
      && base > 0 && base + arena <= 0x1_0000_0000_0000_0000
      && Blocks()
      && Total(size, free) + Total(size, used) == arena
      && Linked() && Laid()
    }

    ghost predicate Linked() {
      forall k {:trigger Unfold(k)} :: Unfold(k) ==> Lists(next, prev, freeMem, free, usedMem, used)
    }

    ghost predicate Laid() {
      forall k {:trigger Unfold(k)} :: Unfold(k) ==> Tiled(size, order, base, base + arena) && Owns(free, used, order)
    }

    ghost predicate Blocks() {
      && (forall a :: a in order ==> a in size && base <= a && End(size, a) <= base + arena)
      && (forall a :: a in free ==> a in size) && (forall a :: a in used ==> a in size)
    }
  }

  lemma BlocksOf(s: State)
    requires s.Laid()
    ensures s.Blocks()
  {
    assert Unfold(0);
    forall a | a in s.order ensures a in s.size && s.base <= a && End(s.size, a) <= s.base + s.arena {
      BlocksDisjoint(s.size, s.order, s.base, s.base + s.arena, a, a);
    }
  }

  /** Only descriptors of blocks, before or after, are written. */
  ghost predicate Touched(s: State, s': State) {
    forall x :: x !in s.order && x !in s'.order ==>
                  Same(s.next, s'.next, x) && Same(s.prev, s'.prev, x) && Same(s.size, s'.size, x)
  }

  /** Writing descriptors of blocks in two steps. */
  lemma TouchedTwice(s: State, s': State, next1: Links, prev1: Links, l: seq<nat>, m: seq<nat>)
    requires Within(s.next, next1, l) && Within(s.prev, prev1, l)
    requires Within(next1, s'.next, m) && Within(prev1, s'.prev, m)
    requires forall x :: x in l || x in m ==> x in s.order || x in s'.order
    requires forall x :: x !in s.order && x !in s'.order ==> Same(s.size, s'.size, x)
    ensures Touched(s, s')
  {
    forall x: nat | x !in s.order && x !in s'.order
      ensures Same(s.next, s'.next, x) && Same(s.prev, s'.prev, x) && Same(s.size, s'.size, x)
    {
      assert Same(s.next, next1, x) && Same(next1, s'.next, x);
      assert Same(s.prev, prev1, x) && Same(prev1, s'.prev, x);
    }
  }

  /** Listed blocks are blocks. */
  lemma ListedInOrder(s: State)
    requires s.Ok()
    ensures forall x :: x in s.free || x in s.used ==> x in s.order
  {
    assert Unfold(0);
  }

  lemma FreeIndex(s: State, a: nat) returns (i: nat)
    requires s.Ok() && a in s.free
    ensures i < |s.order| && s.order[i] == a
  {
    ListedInOrder(s);
    i :| i < |s.order| && s.order[i] == a;
  }

  /** A block handed out has an address and fits into the arena. */
  lemma AllottedAddress(s: State, b: nat)
    requires s.Ok() && (b in s.free || b in s.used)
    ensures b in s.size && b > 0 && s.size[b] + D < 0x1_0000_0000_0000_0000 && s.size[b] + D <= s.arena
  {
    ListedInOrder(s);
  }

  /** Nothing is written that overlaps the payload of a block that stays in use. */
  lemma PayloadUntouched(s: State, s': State, b: nat, x: nat)
    requires s.Ok() && s'.Ok() && s.base == s'.base && s.arena == s'.arena && Touched(s, s')
    requires b in s.used && b in s'.used && s'.size[b] == s.size[b]
    requires b + D < x + D && x < End(s.size, b)
    ensures Same(s.next, s'.next, x) && Same(s.prev, s'.prev, x) && Same(s.size, s'.size, x)
  {
    assert Unfold(0);
    if x in s.order {
      BlocksDisjoint(s.size, s.order, s.base, s.base + s.arena, b, x);
    } else if x in s'.order {
      BlocksDisjoint(s'.size, s'.order, s.base, s.base + s.arena, b, x);
    }
  }

  /** b is the block handed out for n bytes: it was free, it is big enough, and the other used blocks and the
      free bytes outside of it are as before. */
  ghost predicate Allotted(s: State, s': State, n: nat, b: nat)
    requires s.Ok() && s'.Ok()
  {
    && b !in s.used && b in s'.used && s'.size[b] >= n
    && (forall a :: a in s'.used <==> a in s.used || a == b)
    && (forall a :: a in s.used ==> s'.size[a] == s.size[a])
    && (forall p :: FreeByte(s'.size, s'.free, p) <==> FreeByte(s.size, s.free, p) && !(b <= p < End(s'.size, b)))
  }

  // ---- a whole free block is handed out ----

  lemma MovedTotals(size: Sizes, l: seq<nat>, k: nat, m: seq<nat>)
    requires k < |l| && (forall a :: a in l ==> a in size) && (forall a :: a in m ==> a in size)
    ensures (forall a :: a in Without(l, k) ==> a in size)
    ensures Total(size, Without(l, k)) + Total(size, Put(m, l[k])) == Total(size, l) + Total(size, m)
  {
    TotalWithout(size, l, k);
    if m == [] {
      assert [l[k]][..0] == [];
    } else {
      TotalInserted(size, m, l[k]);
    }
  }

  /** Block k of the free list goes to the used list. */
  function GivenOut(s: State, k: nat, next': Links, prev': Links): State
    requires k < |s.free|
  {
    var free', used' := Without(s.free, k), Put(s.used, s.free[k]);
    s.(next := next', prev := prev', freeMem := At(free', 0), usedMem := At(used', 0), free := free', used := used')
  }

  lemma MovedOwns(l: seq<nat>, k: nat, m: seq<nat>, order: seq<nat>)
    requires k < |l| && Distinct(l) && (Owns(l, m, order) || Owns(m, l, order))
    ensures var l', m' := Without(l, k), Put(m, l[k]); Owns(l', m', order) && Owns(m', l', order)
    ensures forall x :: x in Without(l, k) <==> x in l && x != l[k]
  {
    WithoutMembers(l, k);
  }

  lemma GivenOutOk(s: State, k: nat, next': Links, prev': Links)
    requires s.Ok() && k < |s.free| && GivenOut(s, k, next', prev').Linked()
    ensures GivenOut(s, k, next', prev').Ok()
  {
    var s' := GivenOut(s, k, next', prev');
    assert s'.Laid() by {
      assert Unfold(0);
      MovedOwns(s.free, k, s.used, s.order);
    }
    BlocksOf(s');
    MovedTotals(s.size, s.free, k, s.used);
  }

  lemma GivenOutAllotted(s: State, k: nat, next': Links, prev': Links)
    requires s.Ok() && k < |s.free| && GivenOut(s, k, next', prev').Ok()
    ensures Allotted(s, GivenOut(s, k, next', prev'), s.size[s.free[k]], s.free[k])
  {
    var s', b := GivenOut(s, k, next', prev'), s.free[k];
    assert b !in s.used && forall x :: x in s'.free <==> x in s.free && x != b by {
      assert Unfold(0);
      WithoutMembers(s.free, k);
    }
    forall p: int ensures FreeByte(s.size, s'.free, p) <==> FreeByte(s.size, s.free, p) && !(b <= p < End(s.size, b)) {
      TakenByte(s, s'.free, b, p);
    }
  }

  lemma TakenByte(s: State, free': seq<nat>, b: nat, p: int)
    requires s.Ok() && b in s.free && forall x :: x in free' <==> x in s.free && x != b
    ensures FreeByte(s.size, free', p) <==> FreeByte(s.size, s.free, p) && !(b <= p < End(s.size, b))
  {
    if a :| a in s.free && a in s.size && a <= p < End(s.size, a) && a != b {
      assert Unfold(0);
      BlocksDisjoint(s.size, s.order, s.base, s.base + s.arena, a, b);
    }
  }

  // ---- the tail of a free block is handed out ----

  /** The last n bytes of free block a, with a descriptor before them, become a used block. */
  function SplitOff(s: State, k: nat, n: nat, next': Links, prev': Links): State
    requires k < |s.order| && s.order[k] in s.size && s.size[s.order[k]] >= n + D
  {
    var b := End(s.size, s.order[k]) - n - D;
    var used' := Put(s.used, b);
    s.(next := next', prev := prev', size := Split(s.size, s.order[k], n), usedMem := At(used', 0), used := used',
       order := s.order[..k + 1] + [b] + s.order[k + 1..])
  }

  lemma SplitTotals(s: State, a: nat, b: nat, n: nat, j: nat)
    requires s.Blocks() && j < |s.free| && Distinct(s.free) && a == s.free[j] && s.size[a] >= n + D
             && b == End(s.size, a) - n - D
    requires a !in s.used && b !in s.free && b !in s.used
    ensures Total(Split(s.size, a, n), s.free) + Total(Split(s.size, a, n), Put(s.used, b))
            == Total(s.size, s.free) + Total(s.size, s.used)
  {
    var size', rest := Split(s.size, a, n), Without(s.free, j);
    WithoutMembers(s.free, j);
    TotalWithout(s.size, s.free, j);
    TotalWithout(size', s.free, j);
    TotalKept(s.size, size', rest);
    TotalKept(s.size, size', s.used);
    if s.used == [] {
      assert [b][..0] == [];
    } else {
      TotalInserted(size', s.used, b);
    }
  }

  lemma SplitOwns(s: State, k: nat, b: nat)
    requires k < |s.order| && Owns(s.free, s.used, s.order)
    ensures Owns(s.free, Put(s.used, b), s.order[..k + 1] + [b] + s.order[k + 1..])
  {
    assert s.order == s.order[..k + 1] + s.order[k + 1..];
  }

  lemma SplitLaid(s: State, k: nat, n: nat, next': Links, prev': Links)
    requires s.Ok() && k < |s.order| && s.order[k] in s.free && s.size[s.order[k]] >= n + D
    ensures SplitOff(s, k, n, next', prev').Laid() && Distinct(s.free) && s.order[k] !in s.used
    ensures var b := End(s.size, s.order[k]) - n - D; b !in s.free && b !in s.used
  {
    LaidOut(s);
    SplitTiled(s.size, s.order, s.base, s.base + s.arena, k, n);
    SplitOwns(s, k, End(s.size, s.order[k]) - n - D);
  }

  lemma LaidOut(s: State)
    requires s.Ok()
    ensures Tiled(s.size, s.order, s.base, s.base + s.arena) && Owns(s.free, s.used, s.order) && Distinct(s.free)
    ensures forall a :: a in s.free ==> a !in s.used
  {
    assert Unfold(0);
  }

  lemma SplitOffOk(s: State, k: nat, n: nat, next': Links, prev': Links)
    requires s.Ok() && k < |s.order| && s.order[k] in s.free && s.size[s.order[k]] >= n + D
    requires SplitOff(s, k, n, next', prev').Linked()
    ensures SplitOff(s, k, n, next', prev').Ok()
    ensures var b := End(s.size, s.order[k]) - n - D; b !in s.free && b !in s.used
  {
    var a := s.order[k];
    var j: nat :| j < |s.free| && s.free[j] == a;
    SplitLaid(s, k, n, next', prev');
    BlocksOf(SplitOff(s, k, n, next', prev'));
    SplitTotals(s, a, End(s.size, a) - n - D, n, j);
  }

  lemma SplitOffAllotted(s: State, k: nat, n: nat, next': Links, prev': Links)
    requires s.Ok() && k < |s.order| && s.order[k] in s.free && s.size[s.order[k]] >= n + D
    requires SplitOff(s, k, n, next', prev').Ok()
    requires var b := End(s.size, s.order[k]) - n - D; b !in s.free && b !in s.used
    ensures Allotted(s, SplitOff(s, k, n, next', prev'), n, End(s.size, s.order[k]) - n - D)
  {
    assert s.order[k] !in s.used by { assert Unfold(0); }
    SplitBytes(s, s.order[k], n);
  }

  lemma SplitOffDone(s: State, k: nat, n: nat, s': State, b: nat)
    requires s.Ok() && k < |s.order| && s.order[k] in s.free && s.size[s.order[k]] >= n + D
    requires s' == SplitOff(s, k, n, s'.next, s'.prev) && s'.Linked() && b == End(s.size, s.order[k]) - n - D
    requires forall x :: x !in s'.used ==> Same(s.next, s'.next, x) && Same(s.prev, s'.prev, x)
    ensures s'.Ok() && Allotted(s, s', n, b) && Touched(s, s') && s'.size[b] == n
  {
    SplitOffOk(s, k, n, s'.next, s'.prev);
    SplitOffAllotted(s, k, n, s'.next, s'.prev);
    SplitTouched(s, k, n, s'.next, s'.prev);
  }

  lemma SplitTouched(s: State, k: nat, n: nat, next': Links, prev': Links)
    requires s.Ok() && k < |s.order| && s.order[k] in s.size && s.size[s.order[k]] >= n + D
    requires SplitOff(s, k, n, next', prev').Ok()
    requires var s' := SplitOff(s, k, n, next', prev');
             forall x :: x !in s'.used ==> Same(s.next, next', x) && Same(s.prev, prev', x)
    ensures Touched(s, SplitOff(s, k, n, next', prev'))
  {
    var s' := SplitOff(s, k, n, next', prev');
    ListedInOrder(s');
    assert s'.order[k + 1] == End(s.size, s.order[k]) - n - D;
  }

  lemma SplitBytes(s: State, a: nat, n: nat)
    requires s.Ok() && a in s.free && s.size[a] >= n + D && End(s.size, a) - n - D !in s.free
    ensures var b := End(s.size, a) - n - D;
            forall p :: FreeByte(Split(s.size, a, n), s.free, p) <==> FreeByte(s.size, s.free, p) && !(b <= p < End(s.size, a))
  {
    var b := End(s.size, a) - n - D;
    forall p: int
      ensures FreeByte(Split(s.size, a, n), s.free, p) <==> FreeByte(s.size, s.free, p) && !(b <= p < End(s.size, a))
    {
      SplitByte(s, a, n, p);
    }
  }

  lemma SplitByte(s: State, a: nat, n: nat, p: int)
    requires s.Ok() && a in s.free && s.size[a] >= n + D
    requires End(s.size, a) - n - D !in s.free
    ensures var b := End(s.size, a) - n - D;
            FreeByte(Split(s.size, a, n), s.free, p) <==> FreeByte(s.size, s.free, p) && !(b <= p < End(s.size, a))
  {
    var size', b := Split(s.size, a, n), End(s.size, a) - n - D;
    if c :| c in s.free && c in s.size && c <= p < End(s.size, c) && !(b <= p < End(s.size, a)) {
      assert c in size' && c <= p < End(size', c);
    }
    if c :| c in s.free && c in size' && c <= p < End(size', c) {
      assert Unfold(0);
      BlocksDisjoint(s.size, s.order, s.base, s.base + s.arena, a, c);
      assert c in s.size && c <= p < End(s.size, c);
    }
  }

  // ---- a used block is given back ----

  /** Block k of the used list goes to the free list. */
  function GivenBack(s: State, k: nat, next': Links, prev': Links): State
    requires k < |s.used|
  {
    var used', free' := Without(s.used, k), Put(s.free, s.used[k]);
    s.(next := next', prev := prev', freeMem := At(free', 0), usedMem := At(used', 0), free := free', used := used')
  }

  lemma GivenBackOk(s: State, k: nat, next': Links, prev': Links)
    requires s.Ok() && k < |s.used| && GivenBack(s, k, next', prev').Linked()
    ensures GivenBack(s, k, next', prev').Ok()
  {
    var s' := GivenBack(s, k, next', prev');
    assert s'.Laid() by {
      assert Unfold(0);
      MovedOwns(s.used, k, s.free, s.order);
    }
    BlocksOf(s');
    MovedTotals(s.size, s.used, k, s.free);
  }

  /** Block b is free again; the other used blocks stay used, and its bytes are the only new free ones. */
  ghost predicate Freed(s: State, s': State, b: nat)
    requires s.Ok() && s'.Ok()
  {
    && b in s.used && s'.size == s.size
    && (forall a :: a in s'.used <==> a in s.used && a != b)
    && (forall p :: FreeByte(s.size, s'.free, p) <==> FreeByte(s.size, s.free, p) || b <= p < End(s.size, b))
  }

  lemma GivenBackFreed(s: State, k: nat, next': Links, prev': Links)
    requires s.Ok() && k < |s.used| && GivenBack(s, k, next', prev').Ok()
    ensures Freed(s, GivenBack(s, k, next', prev'), s.used[k])
  {
    var s', b := GivenBack(s, k, next', prev'), s.used[k];
    assert forall x :: x in s'.used <==> x in s.used && x != b by {
      assert Unfold(0);
      WithoutMembers(s.used, k);
    }
    forall p: int ensures FreeByte(s.size, s'.free, p) <==> FreeByte(s.size, s.free, p) || b <= p < End(s.size, b) {
      if b <= p < End(s.size, b) {
        assert b in s'.free;
      }
    }
  }

  // ---- two adjacent free blocks become one ----

  /** Free block b, which is the j-th of the list and directly behind a, becomes a part of a. */
  function Joined(s: State, i: nat, j: nat, next': Links, prev': Links): State
    requires i + 1 < |s.order| && j < |s.free| && s.order[i] in s.size && s.order[i + 1] in s.size
  {
    var free' := Without(s.free, j);
    s.(next := next', prev := prev', size := Merged(s.size, s.order[i], s.order[i + 1]), freeMem := At(free', 0),
       free := free', order := Without(s.order, i + 1))
  }

  lemma JoinedTotals(s: State, a: nat, j: nat)
    requires s.Blocks() && j < |s.free| && Distinct(s.free) && a in s.free && a != s.free[j] && a !in s.used
    ensures var size' := Merged(s.size, a, s.free[j]);
            && (forall x :: x in Without(s.free, j) ==> x in size')
            && Total(size', Without(s.free, j)) + Total(size', s.used) == Total(s.size, s.free) + Total(s.size, s.used)
  {
    var b := s.free[j];
    var size', rest := Merged(s.size, a, b), Without(s.free, j);
    WithoutMembers(s.free, j);
    TotalWithout(s.size, s.free, j);
    var i: nat :| i < |rest| && rest[i] == a;
    assert Distinct(rest);
    WithoutMembers(rest, i);
    TotalWithout(s.size, rest, i);
    TotalWithout(size', rest, i);
    TotalKept(s.size, size', Without(rest, i));
    TotalKept(s.size, size', s.used);
  }

  lemma JoinedOwns(s: State, i: nat, j: nat)
    requires i < |s.order| && j < |s.free| && s.order[i] == s.free[j] && Owns(s.free, s.used, s.order)
    requires Distinct(s.order) && Distinct(s.free) && s.free[j] !in s.used
    ensures Owns(Without(s.free, j), s.used, Without(s.order, i))
  {
    WithoutMembers(s.free, j);
    WithoutMembers(s.order, i);
  }

  lemma JoinedLaid(s: State, i: nat, j: nat, next': Links, prev': Links)
    requires s.Ok() && i + 1 < |s.order| && j < |s.free| && s.order[i] in s.free && s.order[i + 1] == s.free[j]
    ensures Joined(s, i, j, next', prev').Laid()
    ensures s.order[i] != s.free[j] && s.order[i] !in s.used && End(s.size, s.order[i]) == s.free[j] && Distinct(s.free)
  {
    var end := s.base + s.arena;
    assert Unfold(0);
    assert Tile(s.size, s.order, end, i);
    OrderDistinct(s.size, s.order, s.base, end);
    MergedTiled(s.size, s.order, s.base, end, i);
    JoinedOwns(s, i + 1, j);
  }

  lemma JoinedOk(s: State, i: nat, j: nat, next': Links, prev': Links)
    requires s.Ok() && i + 1 < |s.order| && j < |s.free| && s.order[i] in s.free && s.order[i + 1] == s.free[j]
    requires Joined(s, i, j, next', prev').Linked()
    ensures var s' := Joined(s, i, j, next', prev'); s'.Ok() && SameBytes(s.size, s.free, s'.size, s'.free)
  {
    var s', a, b := Joined(s, i, j, next', prev'), s.order[i], s.free[j];
    JoinedLaid(s, i, j, next', prev');
    BlocksOf(s');
    JoinedTotals(s, a, j);
    WithoutMembers(s.free, j);
    MergedBytes(s.size, s.free, s'.free, a, b);
  }

  /** Adjacent free blocks are neighbours by address. */
  lemma AdjacentIndex(s: State, a: nat, b: nat) returns (i: nat)
    requires s.Ok() && a in s.free && b in s.free && End(s.size, a) == b
    ensures i + 1 < |s.order| && s.order[i] == a && s.order[i + 1] == b
  {
    i := FreeIndex(s, a);
    AllottedAddress(s, b);
    ListedInOrder(s);
    assert Unfold(0);
    assert Tile(s.size, s.order, s.base + s.arena, i);
  }

  /** Merging changes nothing but the free list: the used blocks, the free bytes and all payloads stay. */
  ghost predicate SameUse(s: State, s': State)
    requires s.Ok() && s'.Ok()
  {
    && s'.base == s.base && s'.arena == s.arena && s'.used == s.used
    && (forall a :: a in s.used ==> s'.size[a] == s.size[a])
    && SameBytes(s.size, s.free, s'.size, s'.free)
    && (forall x :: x in s'.order ==> x in s.order)
    && Touched(s, s')
  }

  lemma SameUseTwice(s: State, s1: State, s2: State)
    requires s.Ok() && s1.Ok() && s2.Ok() && SameUse(s, s1) && SameUse(s1, s2)
    ensures SameUse(s, s2)
  {
    forall x: nat | x !in s.order && x !in s2.order
      ensures Same(s.next, s2.next, x) && Same(s.prev, s2.prev, x) && Same(s.size, s2.size, x)
    {
      assert x !in s1.order;
      assert Same(s.next, s1.next, x) && Same(s.prev, s1.prev, x) && Same(s.size, s1.size, x);
    }
  }

  /** A block handed out after merging is handed out of the heap as it was before. */
  lemma AllottedAfter(s: State, s1: State, s2: State, n: nat, b: nat)
    requires s.Ok() && s1.Ok() && s2.Ok() && SameUse(s, s1) && Allotted(s1, s2, n, b) && Touched(s1, s2)
    requires s2.base == s.base && s2.arena == s.arena
    ensures Allotted(s, s2, n, b) && Touched(s, s2)
  {
    forall x: nat | x !in s.order && x !in s2.order
      ensures Same(s.next, s2.next, x) && Same(s.prev, s2.prev, x) && Same(s.size, s2.size, x)
    {
      assert x !in s1.order;
      assert Same(s.next, s1.next, x) && Same(s.prev, s1.prev, x) && Same(s.size, s1.size, x);
    }
  }

  lemma JoinedUse(s: State, i: nat, j: nat, next': Links, prev': Links)
    requires s.Ok() && i + 1 < |s.order| && j < |s.free| && s.order[i] in s.free && s.order[i + 1] == s.free[j]
    requires Joined(s, i, j, next', prev').Linked() && Within(s.next, next', s.free) && Within(s.prev, prev', s.free)
    ensures var s' := Joined(s, i, j, next', prev');
            s'.Ok() && SameUse(s, s') && s.order[i] in s'.free && forall x :: x in s'.free ==> x in s.free && x != s.free[j]
  {
    var s' := Joined(s, i, j, next', prev');
    JoinedOk(s, i, j, next', prev');
    JoinedLaid(s, i, j, next', prev');
    WithoutMembers(s.free, j);
    ListedInOrder(s);
    assert forall x :: x in s'.order ==> x in s.order;
    assert s.order[i] !in s.used by { assert Unfold(0); }
    forall x: nat | x !in s.order
      ensures Same(s.next, s'.next, x) && Same(s.prev, s'.prev, x) && Same(s.size, s'.size, x)
    {
      assert Same(s.next, next', x) && Same(s.prev, prev', x);
    }
  }

  /** Where no two free blocks are adjacent, there is room exactly if there is a block. */
  lemma RoomIffBlock(s: State, n: nat)
    requires s.Ok() && Compacted(s.size, s.free)
    ensures Room(s.size, s.free, n) <==> exists a :: a in s.free && s.size[a] >= n
  {
    if Room(s.size, s.free, n) {
      ListedInOrder(s);
      assert Unfold(0);
      var a := RoomIsBlock(s.size, s.order, s.base, s.base + s.arena, s.free, n);
    }
    if a :| a in s.free && s.size[a] >= n {
      BlockIsRoom(s.size, s.free, a, n);
    }
  }
}
