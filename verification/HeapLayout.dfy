/**
 The blocks of the arena in address order: descriptor, payload, descriptor, payload, ... from its first byte to
 its last. The sizes of all blocks are a map from descriptor addresses.
 */
module HeapLayout {
  import opened ByteSeqs
  import opened HeapLists

  const D := 24 // size of a descriptor

  type Sizes = map<nat, nat>

  /** First address behind a block. */
  function End(size: Sizes, a: nat): nat
    requires a in size
  {
    a + D + size[a]
  }

  /** The i-th block ends where the next one begins, the last one at the end of the arena. */
  ghost predicate Tile(size: Sizes, order: seq<nat>, end: nat, i: nat)
    requires i < |order|
  {
    order[i] in size && End(size, order[i]) == if i + 1 < |order| then order[i + 1] else end
  }

  /** The blocks lie one behind the other and fill the arena. */
  ghost predicate Tiled(size: Sizes, order: seq<nat>, base: nat, end: nat) {
    && |order| > 0 && order[0] == base
    && (forall i: nat {:trigger Tile(size, order, end, i)} :: i < |order| ==> Tile(size, order, end, i))
  }

  lemma {:induction false} Ordered(size: Sizes, order: seq<nat>, base: nat, end: nat, i: nat, j: nat)
    requires Tiled(size, order, base, end) && i < j < |order|
    ensures order[i] in size && End(size, order[i]) <= order[j]
    decreases j - i
  {
    assert Tile(size, order, end, i);
    if j > i + 1 {
      Ordered(size, order, base, end, i + 1, j);
      assert Tile(size, order, end, i + 1);
    }
  }

  /** A block occurs once. */
  lemma OrderDistinct(size: Sizes, order: seq<nat>, base: nat, end: nat)
    requires Tiled(size, order, base, end)
    ensures Distinct(order)
  {
    forall i, j | 0 <= i < j < |order| ensures order[i] != order[j] {
      Ordered(size, order, base, end, i, j);
    }
  }

  lemma BlockInArena(size: Sizes, order: seq<nat>, base: nat, end: nat, i: nat)
    requires Tiled(size, order, base, end) && i < |order|
    ensures order[i] in size && base <= order[i] && End(size, order[i]) <= end
  {
    var last := |order| - 1;
    assert Tile(size, order, end, i) && Tile(size, order, end, last);
    if 0 < i {
      Ordered(size, order, base, end, 0, i);
    }
    if i < last {
      Ordered(size, order, base, end, i, last);
    }
  }

  /** No byte belongs to two blocks, and all bytes of blocks are bytes of the arena. */
  lemma BlocksDisjoint(size: Sizes, order: seq<nat>, base: nat, end: nat, a: nat, b: nat)
    requires Tiled(size, order, base, end) && a in order && b in order
    ensures a in size && b in size && base <= a && End(size, a) <= end
    ensures a != b ==> End(size, a) <= b || End(size, b) <= a
  {
    var i: nat :| i < |order| && order[i] == a;
    var j: nat :| j < |order| && order[j] == b;
    BlockInArena(size, order, base, end, i);
    BlockInArena(size, order, base, end, j);
    if i < j {
      Ordered(size, order, base, end, i, j);
    } else if j < i {
      Ordered(size, order, base, end, j, i);
    }
  }

  /** Every byte of the arena belongs to a block. */
  lemma {:induction false} ByteInBlock(size: Sizes, order: seq<nat>, base: nat, end: nat, p: nat, k: nat) returns (a: nat)
    requires Tiled(size, order, base, end) && k < |order| && order[k] <= p < end
    ensures a in order && a in size && a <= p < End(size, a)
    decreases |order| - k
  {
    assert Tile(size, order, end, k);
    if p < End(size, order[k]) {
      a := order[k];
    } else {
      a := ByteInBlock(size, order, base, end, p, k + 1);
    }
  }

  // ---- free bytes ----

  /** Byte p belongs to a block of the list. */
  ghost predicate FreeByte(size: Sizes, free: seq<nat>, p: int) {
    exists a :: a in free && a in size && a <= p < End(size, a)
  }

  /** A descriptor and n bytes from x on all belong to free blocks. */
  ghost predicate RoomAt(size: Sizes, free: seq<nat>, x: nat, n: nat) {
    forall p :: x <= p < x + D + n ==> FreeByte(size, free, p)
  }

  /** Somewhere there are enough free bytes in a row for a descriptor and n bytes. */
  ghost predicate Room(size: Sizes, free: seq<nat>, n: nat) {
    exists x :: RoomAt(size, free, x, n)
  }

  ghost predicate SameBytes(size: Sizes, free: seq<nat>, size': Sizes, free': seq<nat>) {
    forall p :: FreeByte(size', free', p) <==> FreeByte(size, free, p)
  }

  lemma SameRoom(size: Sizes, free: seq<nat>, size': Sizes, free': seq<nat>, n: nat)
    requires SameBytes(size, free, size', free')
    ensures Room(size, free, n) <==> Room(size', free', n)
  {
    forall x: nat ensures RoomAt(size, free, x, n) <==> RoomAt(size', free', x, n) {
    }
  }

  /** No two free blocks are adjacent. */
  ghost predicate Compacted(size: Sizes, free: seq<nat>) {
    forall a, b :: a in free && b in free && a in size ==> End(size, a) != b
  }

  /** A big enough block makes room. */
  lemma BlockIsRoom(size: Sizes, free: seq<nat>, a: nat, n: nat)
    requires a in free && a in size && size[a] >= n
    ensures Room(size, free, n)
  {
    assert RoomAt(size, free, a, n);
  }

  /** Where no two free blocks are adjacent, room is a big enough block. */
  lemma RoomIsBlock(size: Sizes, order: seq<nat>, base: nat, end: nat, free: seq<nat>, n: nat) returns (a: nat)
    requires Tiled(size, order, base, end) && (forall b :: b in free ==> b in order)
    requires Compacted(size, free) && Room(size, free, n)
    ensures a in free && a in size && size[a] >= n
  {
    var x: nat :| RoomAt(size, free, x, n);
    assert FreeByte(size, free, x);
    a :| a in free && a in size && a <= x < End(size, a);
    if size[a] < n {
      var p := End(size, a);
      assert FreeByte(size, free, p);
      var b :| b in free && b in size && b <= p < End(size, b);
      BlocksDisjoint(size, order, base, end, a, b);
      assert false;
    }
  }

  // ---- splitting and merging ----

  /** Sizes after the tail of block a becomes a block of n bytes. */
  function Split(size: Sizes, a: nat, n: nat): Sizes
    requires a in size && size[a] >= n + D
  {
    size[a := size[a] - n - D][End(size, a) - n - D := n]
  }

  lemma SplitTiled(size: Sizes, order: seq<nat>, base: nat, end: nat, k: nat, n: nat)
    requires Tiled(size, order, base, end) && k < |order| && order[k] in size && size[order[k]] >= n + D
    ensures var b := End(size, order[k]) - n - D;
            && b !in order
            && Tiled(Split(size, order[k], n), order[..k + 1] + [b] + order[k + 1..], base, end)
  {
    var a := order[k];
    var b := End(size, a) - n - D;
    var size', order' := Split(size, a, n), order[..k + 1] + [b] + order[k + 1..];
    assert Tile(size, order, end, k);
    forall i: nat | i < |order| ensures order[i] != b && (i != k ==> order[i] != a) {
      BlocksDisjoint(size, order, base, end, order[i], a);
      OrderDistinct(size, order, base, end);
    }
    forall i: nat | i < |order'| ensures Tile(size', order', end, i) {
      if i < k {
        assert Tile(size, order, end, i);
      } else if i > k + 1 {
        assert Tile(size, order, end, i - 1);
      }
    }
  }

  /** Sizes after the block behind a becomes a part of it. */
  function Merged(size: Sizes, a: nat, b: nat): Sizes
    requires a in size && b in size
  {
    size[a := size[a] + size[b] + D]
  }

  lemma MergedTiled(size: Sizes, order: seq<nat>, base: nat, end: nat, k: nat)
    requires Tiled(size, order, base, end) && k + 1 < |order| && order[k] in size && order[k + 1] in size
    ensures Tiled(Merged(size, order[k], order[k + 1]), Without(order, k + 1), base, end)
  {
    var size', order' := Merged(size, order[k], order[k + 1]), Without(order, k + 1);
    OrderDistinct(size, order, base, end);
    assert Tile(size, order, end, k) && Tile(size, order, end, k + 1);
    forall i: nat | i < |order'| ensures Tile(size', order', end, i) {
      assert Tile(size, order, end, if i <= k then i else i + 1);
    }
  }

  /** Merging two adjacent free blocks keeps the free bytes. */
  lemma MergedBytes(size: Sizes, free: seq<nat>, free': seq<nat>, a: nat, b: nat)
    requires a in free && b in free && a != b && (forall c :: c in free ==> c in size) && End(size, a) == b
    requires forall c :: c in free' <==> c in free && c != b
    ensures SameBytes(size, free, Merged(size, a, b), free')
  {
    var size' := Merged(size, a, b);
    forall p: int ensures FreeByte(size', free', p) <==> FreeByte(size, free, p) {
      if FreeByte(size, free, p) {
        var c :| c in free && c in size && c <= p < End(size, c);
        var d := if c == b then a else c;
        assert d in free' && d in size' && d <= p < End(size', d);
      }
      if FreeByte(size', free', p) {
        var c :| c in free' && c in size' && c <= p < End(size', c);
        var d := if c == a && p >= b then b else c;
        assert d in free && d in size && d <= p < End(size, d);
      }
    }
  }

  // ---- accounting ----

  /** Bytes of the blocks of a list, descriptors included. */
  function Total(size: Sizes, l: seq<nat>): (n: nat)
    requires forall a :: a in l ==> a in size
  {
    if l == [] then 0 else Total(size, l[..|l| - 1]) + D + size[l[|l| - 1]]
  }

  lemma {:induction false} TotalKept(size: Sizes, size': Sizes, l: seq<nat>)
    requires forall a :: a in l ==> a in size && a in size' && size'[a] == size[a]
    ensures Total(size', l) == Total(size, l)
  {
    if l != [] {
      TotalKept(size, size', l[..|l| - 1]);
    }
  }

  lemma {:induction false} TotalJoin(size: Sizes, l: seq<nat>, m: seq<nat>)
    requires forall a :: a in l + m ==> a in size
    ensures (forall a :: a in l || a in m ==> a in size) && Total(size, l + m) == Total(size, l) + Total(size, m)
    decreases |m|
  {
    assert forall a :: a in l || a in m ==> a in l + m;
    if m == [] {
      assert l + m == l;
    } else {
      var m' := m[..|m| - 1];
      assert (l + m)[..|l + m| - 1] == l + m';
      TotalJoin(size, l, m');
    }
  }

  lemma TotalWithout(size: Sizes, l: seq<nat>, k: nat)
    requires k < |l| && forall a :: a in l ==> a in size
    ensures (forall a :: a in Without(l, k) ==> a in size)
            && Total(size, l) == Total(size, Without(l, k)) + D + size[l[k]]
  {
    assert l == (l[..k] + [l[k]]) + l[k + 1..];
    TotalJoin(size, l[..k] + [l[k]], l[k + 1..]);
    assert (l[..k] + [l[k]])[..k] == l[..k];
    TotalJoin(size, l[..k], l[k + 1..]);
  }

  lemma TotalInserted(size: Sizes, l: seq<nat>, a: nat)
    requires l != [] && a in size && forall b :: b in l ==> b in size
    ensures Total(size, Inserted(l, a)) == Total(size, l) + D + size[a]
  {
    var r := Inserted(l, a);
    assert Without(r, 1) == l;
    TotalWithout(size, r, 1);
  }
}
