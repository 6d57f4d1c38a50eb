/**
 The heap: blocks of an arena in a free list and a used list, with best or worst fit, splitting at the tail and
 compaction on demand. Sizes and addresses are 64 bits wide.
 */
module Heap {
  import opened Hiding
  import opened HeapLists
  import opened HeapLayout
  import opened HeapState

  const WORD := 0x1_0000_0000_0000_0000

  /** 64-bit difference. */
  function Sub64(a: nat, b: nat): (r: nat)
    requires a < WORD && b < WORD
    ensures r < WORD
  {
    if a >= b then a - b else a + WORD - b
  }

  /** 64-bit value read as a signed number. */
  function Signed64(a: nat): (r: int)
    requires a < WORD
    ensures a < WORD / 2 ==> r == a
    ensures a >= WORD / 2 ==> r < 0
  {
    if a < WORD / 2 then a else a - WORD
  }

  /** The size rounded up to a multiple of 4, in 64 bits. */
  function Align(n: nat): (r: nat)
    requires n < WORD
    ensures r % 4 == 0
    ensures n <= WORD - 4 ==> n <= r < n + 4
    ensures n > WORD - 4 ==> r == 0
  {
    var m := if n + 3 < WORD then n + 3 else n + 3 - WORD;
    m - m % 4
  }

  /** Where n bytes of free block a are handed out: at its tail, if what stays behind is worth a block, and else at a
      itself. What stays behind is compared as a signed number. */
  function Landing(size: Sizes, a: nat, n: nat): int
    requires a in size
  {
    if D < size[a] - n - D < WORD / 2 then End(size, a) - n - D else a
  }

  /** The k-th free block is the first one of exactly n bytes, or else the first of the largest. */
  ghost predicate Fits(size: Sizes, free: seq<nat>, n: nat, k: nat)
    requires forall a :: a in free ==> a in size
  {
    && k < |free| && size[free[k]] >= n
    && if size[free[k]] == n then forall j :: 0 <= j < k ==> size[free[j]] != n
       else && (forall a :: a in free ==> size[a] != n && size[a] <= size[free[k]])
            && (forall j :: 0 <= j < k ==> size[free[j]] < size[free[k]])
  }

  /** b is where the search and the splitting of the heap put n bytes. */
  ghost predicate Lands(size: Sizes, free: seq<nat>, n: nat, b: nat)
    requires forall a :: a in free ==> a in size
  {
    exists k: nat :: Fits(size, free, n, k) && b == Landing(size, free[k], n)
  }

  class Arena {
    const base: nat
    const arena: nat
    var next: Links
    var prev: Links
    var size: Sizes
    var freeMem: nat
    var usedMem: nat
    ghost var free: seq<nat>
    ghost var used: seq<nat>
    ghost var order: seq<nat>

    ghost function View(): State
      reads this
    {
      State(base, arena, next, prev, size, freeMem, usedMem, free, used, order)
    }

    ghost predicate Valid()
      reads this
    {
      View().Ok()
    }

    /** One free block takes the whole arena. */
    constructor (base: nat, arena: nat)
      requires base > 0 && D <= arena && base + arena <= WORD
      ensures Valid() && used == [] && this.base == base && this.arena == arena
      ensures forall p :: FreeByte(size, free, p) <==> base <= p < base + arena
    {
      this.base, this.arena := base, arena;
      next, prev, size := map[base := 0], map[base := 0], map[base := arena - D];
      freeMem, usedMem := base, 0;
      free, used, order := [base], [], [base];
      new;
      assert Node(next, prev, free, 0);
      assert Tile(size, order, base + arena, 0);
      assert free[..0] == [];
    }

    // ---- links ----

    /** Link a behind b. */
    method LinkAfter(a: nat, b: nat)
      requires a != b && b in next && (next[b] != 0 ==> next[b] in prev)
      modifies this`next, this`prev
      ensures next == old(next)[a := old(next)[b]][b := a]
      ensures prev == if old(next)[b] != 0 then old(prev)[a := b][old(next)[b] := a] else old(prev)[a := b]
    {
      next := next[a := next[b]];
      prev := prev[a := b];
      if next[a] != 0 {
        prev := prev[next[a] := a];
      }
      next := next[b := a];
    }

    /** Link the neighbours of a to each other. */
    method Detach(a: nat)
      requires a in next && a in prev && next[a] != a
      modifies this`next, this`prev
      ensures prev == if old(next)[a] != 0 then old(prev)[old(next)[a] := old(prev)[a]] else old(prev)
      ensures next == if old(prev)[a] != 0 then old(next)[old(prev)[a] := old(next)[a]] else old(next)
    {
      if next[a] != 0 {
        prev := prev[next[a] := prev[a]];
      }
      if prev[a] != 0 {
        next := next[prev[a] := next[a]];
      }
    }

    method Isolate(a: nat)
      modifies this`next, this`prev
      ensures next == old(next)[a := 0] && prev == old(prev)[a := 0]
    {
      next, prev := next[a := 0], prev[a := 0];
    }

    // ---- searching ----

    /** The free block for n bytes: the first one of exactly that size, or else the first of the largest. */
    method FindFree(n: nat) returns (r: nat, ghost k: nat)
      requires Valid()
      ensures r == 0 <==> forall a :: a in free ==> size[a] < n
      ensures r != 0 ==> k < |free| && r == free[k] && size[r] >= n
      ensures r != 0 && size[r] == n ==> forall j :: 0 <= j < k ==> size[free[j]] != n
      ensures r != 0 && size[r] != n ==>
                && (forall a :: a in free ==> size[a] != n && size[a] <= size[r])
                && (forall j :: 0 <= j < k ==> size[free[j]] < size[r])
    {
      r, k := 0, 0;
      assert IsList(next, prev, freeMem, free) by { assert Unfold(0); }
      var mbd := freeMem;
      ghost var i := 0;
      while mbd != 0 && size[mbd] != n
        invariant i <= |free| && mbd == At(free, i)
        invariant forall j :: 0 <= j < i ==> size[free[j]] != n
        invariant r == 0 ==> forall j :: 0 <= j < i ==> size[free[j]] < n
        invariant r != 0 ==> k < i && r == free[k] && size[r] > n
        invariant r != 0 ==> forall j :: 0 <= j < i ==> size[free[j]] <= size[r]
        invariant r != 0 ==> forall j :: 0 <= j < k ==> size[free[j]] < size[r]
        decreases |free| - i
      {
        assert Node(next, prev, free, i);
        if size[mbd] > n {
          if r != 0 {
            if size[r] < size[mbd] {
              r, k := mbd, i;
            }
          } else {
            r, k := mbd, i;
          }
        }
        mbd := next[mbd];
        i := i + 1;
      }
      assert i < |free| ==> Node(next, prev, free, i);
      if mbd != 0 {
        r, k := mbd, i;
      }
    }

    /** The used block whose payload starts at ptr. */
    method FindUsed(ptr: nat) returns (r: nat, ghost k: nat)
      requires Valid()
      ensures r == 0 <==> forall a :: a in used ==> a + D != ptr
      ensures r != 0 ==> k < |used| && r == used[k] && r + D == ptr
    {
      assert IsList(next, prev, usedMem, used) by { assert Unfold(0); }
      r, k := usedMem, 0;
      while r != 0 && ptr != r + D
        invariant k <= |used| && r == At(used, k)
        invariant forall j :: 0 <= j < k ==> used[j] + D != ptr
        decreases |used| - k
      {
        assert Node(next, prev, used, k);
        r := next[r];
        k := k + 1;
      }
      assert k < |used| ==> Node(next, prev, used, k) && used[k] in used;
    }

    /** Is there a used block whose payload starts at ptr? */
    method IsIn(ptr: nat) returns (b: bool)
      requires Valid()
      ensures b <==> exists a :: a in used && a + D == ptr
    {
      var r;
      ghost var k;
      r, k := FindUsed(ptr);
      b := r != 0;
    }

    /** Bytes taken by the used blocks and their descriptors: all of the arena that is not free. */
    method UsedSize() returns (n: nat)
      requires Valid()
      ensures n == Total(size, used) == arena - Total(size, free)
    {
      assert IsList(next, prev, usedMem, used) by { assert Unfold(0); }
      var mbd, count := usedMem, 0;
      n := 0;
      ghost var i := 0;
      while mbd != 0
        invariant i <= |used| && mbd == At(used, i) && count == i
        invariant (forall a :: a in used[..i] ==> a in size) && n + D * count == Total(size, used[..i])
        decreases |used| - i
      {
        assert Node(next, prev, used, i);
        assert used[..i + 1][..i] == used[..i];
        count := count + 1;
        n := n + size[mbd];
        mbd := next[mbd];
        i := i + 1;
      }
      assert i < |used| ==> Node(next, prev, used, i);
      assert used[..i] == used;
      n := n + count * D;
    }

    // ---- allocating ----

    /** Put a block that is in no list into the used list. */
    method AddUsed(a: nat)
      requires Lists(next, prev, freeMem, free, usedMem, used) && a != 0 && a !in free && a !in used
      modifies this`next, this`prev, this`usedMem, this`used
      ensures used == Put(old(used), a) && Lists(next, prev, freeMem, free, usedMem, used)
      ensures Within(old(next), next, used) && Within(old(prev), prev, used)
    {
      if used != [] {
        assert Node(next, prev, used, 0);
        if |used| > 1 {
          assert Node(next, prev, used, 1);
        }
      }
      if usedMem == 0 {
        Isolate(a);
        usedMem := a;
      } else {
        LinkAfter(a, usedMem);
      }
      PutIn(old(next), old(prev), next, prev, used, freeMem, free, a);
      used := Put(used, a);
    }

    /** Take the k-th free block out of the free list. */
    method LeaveFree(mbd: nat, ghost k: nat)
      requires Lists(next, prev, freeMem, free, usedMem, used) && k < |free| && mbd == free[k]
      modifies this`next, this`prev, this`freeMem, this`free
      ensures free == Without(old(free), k) && Lists(next, prev, freeMem, free, usedMem, used)
      ensures mbd !in free && mbd !in used && mbd != 0
      ensures Within(old(next), next, old(free)) && Within(old(prev), prev, old(free))
    {
      assert Node(next, prev, free, k);
      if k + 1 < |free| {
        assert Node(next, prev, free, k + 1);
      }
      if freeMem == mbd {
        freeMem := next[mbd];
        if freeMem != 0 {
          prev := prev[freeMem := 0];
        }
      }
      Detach(mbd);
      assert prev == PrevWithout(old(prev), free, k);
      TakeOut(old(next), old(prev), free, k, usedMem, used);
      free := Without(free, k);
    }

    /** Hand out the k-th free block as it is. */
    method GiveWhole(mbd: nat, ghost k: nat)
      requires Valid() && k < |free| && mbd == free[k]
      modifies this`next, this`prev, this`freeMem, this`free, this`usedMem, this`used
      ensures Valid() && Allotted(old(View()), View(), size[mbd], mbd) && Touched(old(View()), View())
    {
      ghost var v := View();
      assert Lists(next, prev, freeMem, free, usedMem, used) by { assert Unfold(0); }
      LeaveFree(mbd, k);
      ghost var next1, prev1 := next, prev;
      AddUsed(mbd);
      assert View() == GivenOut(v, k, next, prev);
      GivenOutOk(v, k, next, prev);
      GivenOutAllotted(v, k, next, prev);
      ListedInOrder(v);
      ListedInOrder(View());
      TouchedTwice(v, View(), next1, prev1, v.free, used);
    }

    /** Make a block of the last n bytes of a block. */
    method Carve(mbd: nat, n: nat) returns (b: nat)
      requires mbd in size && size[mbd] >= n + D
      modifies this`next, this`prev, this`size
      ensures b == End(old(size), mbd) - n - D && size == Split(old(size), mbd, n)
      ensures next == old(next)[b := 0] && prev == old(prev)[b := 0]
    {
      size := size[mbd := size[mbd] - (n + D)];
      b := mbd + D + size[mbd];
      size := size[b := n];
      Isolate(b);
    }

    /** The last n bytes of a free block, the k-th by address, become a used block. */
    method SplitTail(mbd: nat, n: nat, ghost k: nat) returns (b: nat)
      requires Valid() && k < |order| && mbd == order[k] && mbd in free && size[mbd] >= n + D
      modifies this`next, this`prev, this`size, this`usedMem, this`used, this`order
      ensures b == End(old(size), mbd) - n - D
      ensures View() == SplitOff(old(View()), k, n, next, prev) && View().Linked()
      ensures forall x :: x != b && x !in used ==> Same(old(next), next, x) && Same(old(prev), prev, x)
    {
      ghost var v := View();
      SplitLaid(v, k, n, next, prev);
      assert Lists(next, prev, freeMem, free, usedMem, used) by { assert Unfold(0); }
      b := Carve(mbd, n);
      ghost var next1, prev1 := next, prev;
      Isolated(v.next, v.prev, freeMem, free, usedMem, used, b);
      AddUsed(b);
      order := order[..k + 1] + [b] + order[k + 1..];
      assert View() == SplitOff(v, k, n, next, prev);
      forall x: nat | x != b && x !in used ensures Same(v.next, next, x) && Same(v.prev, prev, x) {
        assert Same(v.next, next1, x) && Same(next1, next, x) && Same(v.prev, prev1, x) && Same(prev1, prev, x);
      }
    }

    /** Hand out the last n bytes of a free block. */
    method GiveTail(mbd: nat, n: nat) returns (b: nat)
      requires Valid() && mbd in free && size[mbd] >= n + D
      modifies this`next, this`prev, this`size, this`usedMem, this`used, this`order
      ensures Valid() && Allotted(old(View()), View(), n, b) && Touched(old(View()), View()) && size[b] == n
      ensures b == End(old(size), mbd) - n - D
    {
      ghost var v := View();
      ghost var i := FreeIndex(v, mbd);
      b := SplitTail(mbd, n, i);
      SplitOffDone(v, i, n, View(), b);
    }

    /** Hand out n bytes of the k-th free block: its tail, if what stays behind is worth a block. */
    method Give(mbd: nat, n: nat, ghost k: nat) returns (b: nat)
      requires Valid() && k < |free| && mbd == free[k] && size[mbd] >= n
      modifies this
      ensures Valid() && Allotted(old(View()), View(), n, b) && Touched(old(View()), View()) && b != 0
      ensures arena < WORD / 2 ==> size[b] <= n + 2 * D
      ensures b == Landing(old(size), mbd, n)
    {
      ghost var v := View();
      AllottedAddress(v, mbd);
      var needed := n + D;
      if Signed64(Sub64(size[mbd], needed)) > D {
        b := GiveTail(mbd, n);
      } else {
        GiveWhole(mbd, k);
        b := mbd;
      }
      AllottedAddress(View(), b);
    }

    /** Hand out a block of at least n bytes, if there is a free one. */
    method AllocFit(n: nat) returns (b: nat)
      requires Valid()
      modifies this
      ensures Valid() && Touched(old(View()), View())
      ensures b == 0 <==> old(forall a :: a in free ==> size[a] < n)
      ensures b == 0 ==> View() == old(View())
      ensures b != 0 ==> Allotted(old(View()), View(), n, b)
      ensures b != 0 && arena < WORD / 2 ==> size[b] <= n + 2 * D
      ensures b != 0 ==> Lands(old(size), old(free), n, b)
    {
      var mbd;
      ghost var k;
      mbd, k := FindFree(n);
      if mbd == 0 {
        b := 0;
      } else {
        assert Fits(size, free, n, k);
        b := Give(mbd, n, k);
      }
    }

    // ---- freeing ----

    /** Put a block that is in no list into the free list. */
    method AddFree(a: nat)
      requires Lists(next, prev, freeMem, free, usedMem, used) && a != 0 && a !in free && a !in used
      modifies this`next, this`prev, this`freeMem, this`free
      ensures free == Put(old(free), a) && Lists(next, prev, freeMem, free, usedMem, used)
      ensures Within(old(next), next, free) && Within(old(prev), prev, free)
    {
      if free != [] {
        assert Node(next, prev, free, 0);
        if |free| > 1 {
          assert Node(next, prev, free, 1);
        }
      }
      Isolate(a);
      if freeMem == 0 {
        freeMem := a;
      } else {
        LinkAfter(a, freeMem);
      }
      assert free != [] ==> next == old(next)[a := At(free, 1)][free[0] := a];
      assert free != [] ==>
               prev == if At(free, 1) != 0 then old(prev)[a := free[0]][At(free, 1) := a] else old(prev)[a := free[0]];
      PutIn(old(next), old(prev), next, prev, free, usedMem, used, a);
      free := Put(free, a);
    }

    /** Take the k-th used block out of the used list. */
    method LeaveUsed(mbd: nat, ghost k: nat)
      requires Lists(next, prev, freeMem, free, usedMem, used) && k < |used| && mbd == used[k]
      modifies this`next, this`prev, this`usedMem, this`used
      ensures used == Without(old(used), k) && Lists(next, prev, freeMem, free, usedMem, used)
      ensures mbd !in free && mbd !in used && mbd != 0
      ensures Within(old(next), next, old(used)) && Within(old(prev), prev, old(used))
    {
      assert Node(next, prev, used, k);
      if k + 1 < |used| {
        assert Node(next, prev, used, k + 1);
      }
      if usedMem == mbd {
        usedMem := next[mbd];
        if usedMem != 0 {
          prev := prev[usedMem := 0];
        }
      }
      Detach(mbd);
      assert prev == PrevWithout(old(prev), used, k);
      TakeOut(old(next), old(prev), used, k, freeMem, free);
      used := Without(used, k);
    }

    /** Give back the block whose payload starts at ptr; any other pointer changes nothing. */
    method Free(ptr: nat) returns (done: bool)
      requires Valid()
      modifies this
      ensures Valid() && Touched(old(View()), View())
      ensures done <==> exists a :: a in old(used) && a + D == ptr
      ensures !done ==> View() == old(View())
      ensures done ==> ptr >= D && Freed(old(View()), View(), ptr - D)
    {
      ghost var v := View();
      var mbd;
      ghost var k;
      mbd, k := FindUsed(ptr);
      done := mbd != 0;
      if done {
        assert Lists(next, prev, freeMem, free, usedMem, used) by { assert Unfold(0); }
        LeaveUsed(mbd, k);
        ghost var next1, prev1 := next, prev;
        AddFree(mbd);
        assert View() == GivenBack(v, k, next, prev);
        GivenBackOk(v, k, next, prev);
        GivenBackFreed(v, k, next, prev);
        ListedInOrder(v);
        ListedInOrder(View());
        TouchedTwice(v, View(), next1, prev1, v.used, free);
      }
    }

    // ---- merging ----

    /** The blocks lie side by side. */
    predicate Adjacent(a: nat, b: nat)
      requires a in size && b in size
      reads this
    {
      a + D + size[a] == b || b + D + size[b] == a
    }

    /** The first free block that lies next to free block mbd. */
    method FindAdjacent(mbd: nat) returns (r: nat)
      requires Valid() && mbd in free
      ensures r != 0 ==> r in free && r != mbd && Adjacent(r, mbd)
      ensures r == 0 ==> forall a :: a in free ==> !Adjacent(a, mbd)
    {
      assert IsList(next, prev, freeMem, free) by { assert Unfold(0); }
      r := freeMem;
      ghost var i := 0;
      while r != 0 && !(mbd != r && (r + D + size[r] == mbd || mbd + D + size[mbd] == r))
        invariant i <= |free| && r == At(free, i)
        invariant forall j :: 0 <= j < i ==> !Adjacent(free[j], mbd)
        decreases |free| - i
      {
        assert Node(next, prev, free, i);
        r := next[r];
        i := i + 1;
      }
      assert i < |free| ==> Node(next, prev, free, i);
    }

    /** Let the free list begin elsewhere before its block right goes away. */
    method MoveHead(left: nat, right: nat)
      requires right in next
      modifies this`freeMem
      ensures freeMem == if old(freeMem) != right then old(freeMem) else if next[right] != 0 then next[right] else left
    {
      if freeMem == right {
        if next[right] != 0 {
          freeMem := next[right];
        } else {
          freeMem := left;
        }
      }
    }

    /** Unlink the right one of two free blocks, the j-th of the list, for good. */
    method DropRight(left: nat, right: nat, ghost j: nat)
      requires Lists(next, prev, freeMem, free, usedMem, used) && j < |free| && right == free[j] && left in free
               && left != right
      modifies this`next, this`prev, this`freeMem, this`free
      ensures free == Without(old(free), j) && Lists(next, prev, freeMem, free, usedMem, used)
      ensures Within(old(next), next, old(free)) && Within(old(prev), prev, old(free))
    {
      assert Node(next, prev, free, j);
      if j + 1 < |free| {
        assert Node(next, prev, free, j + 1);
      }
      MoveHead(left, right);
      Detach(right);
      TakeOut(old(next), old(prev), free, j, usedMem, used);
      Isolated(next, prev, At(Without(free, j), 0), Without(free, j), usedMem, used, right);
      Isolate(right);
      free := Without(free, j);
    }

    /** Merge free block right, the j-th of the list and i+1-st by address, into left before it. */
    method Merge(left: nat, right: nat, ghost i: nat, ghost j: nat)
      requires Valid() && left in free && j < |free| && right == free[j] && i + 1 < |order|
      requires order[i] == left && order[i + 1] == right && left != right
      modifies this`next, this`prev, this`size, this`freeMem, this`free, this`order
      ensures Valid() && SameUse(old(View()), View())
      ensures size == Merged(old(size), left, right) && |free| == |old(free)| - 1
      ensures left in free && forall x :: x in free ==> x in old(free) && x != right
    {
      ghost var v := View();
      assert Lists(next, prev, freeMem, free, usedMem, used) by { assert Unfold(0); }
      size := size[left := size[left] + size[right] + D];
      DropRight(left, right, j);
      order := Without(order, i + 1);
      assert View() == Joined(v, i, j, next, prev);
      JoinedUse(v, i, j, next, prev);
    }

    /** Merge two adjacent free blocks into the left one. */
    method Join(a: nat, b: nat) returns (left: nat)
      requires Valid() && a in free && b in free && a != b && Adjacent(a, b)
      modifies this`next, this`prev, this`size, this`freeMem, this`free, this`order
      ensures Valid() && SameUse(old(View()), View()) && |free| == |old(free)| - 1
      ensures left in free && size[left] == old(size)[a] + old(size)[b] + D
      ensures forall x :: x in free ==> x in old(free) && (x != left ==> size[x] == old(size)[x])
    {
      left := if a < b then a else b;
      var right := if a < b then b else a;
      ghost var i := AdjacentIndex(View(), left, right);
      ghost var j: nat :| j < |free| && free[j] == right;
      Merge(left, right, i, j);
    }

    /** The first free block that has a free neighbour, and that neighbour. */
    method FindPair() returns (mbd: nat, r: nat)
      requires Valid()
      ensures mbd == 0 ==> Compacted(size, free)
      ensures mbd != 0 ==> mbd in free && r in free && r != mbd && Adjacent(r, mbd)
    {
      assert IsList(next, prev, freeMem, free) by { assert Unfold(0); }
      mbd, r := freeMem, 0;
      ghost var i := 0;
      while mbd != 0
        invariant i <= |free| && mbd == At(free, i)
        invariant forall j, b :: 0 <= j < i && b in free ==> !Adjacent(b, free[j])
        decreases |free| - i
      {
        assert Node(next, prev, free, i);
        r := FindAdjacent(mbd);
        if r != 0 {
          return;
        }
        mbd := next[mbd];
        i := i + 1;
      }
      assert i < |free| ==> Node(next, prev, free, i);
    }

    /** All free blocks are too small for n bytes. */
    ghost predicate TooSmall(n: nat)
      requires forall a :: a in free ==> a in size
      reads this
    {
      forall a :: a in free ==> size[a] < n
    }

    /** Merge adjacent free blocks until a block of needed bytes arises, or, if none does or needed is 0, until no two
        are left. The bytes that are free stay the same, and so do the used blocks. */
    method Compact(needed: nat) returns (got: nat)
      requires Valid()
      modifies this`next, this`prev, this`size, this`freeMem, this`free, this`order
      ensures Valid() && SameUse(old(View()), View())
      ensures needed != 0 && got >= needed ==> exists a :: a in free && size[a] == got
      ensures needed == 0 || got < needed ==> Compacted(size, free)
      ensures got < needed && old(TooSmall(needed)) ==> TooSmall(needed)
    {
      got := 0;
      ghost var v, small := View(), TooSmall(needed);
      var mbd, r := FindPair();
      while mbd != 0
        invariant Valid() && SameUse(v, View())
        invariant mbd == 0 ==> Compacted(size, free)
        invariant mbd != 0 ==> mbd in free && r in free && r != mbd && Adjacent(r, mbd)
        invariant needed != 0 ==> got < needed
        invariant small ==> TooSmall(needed)
        decreases |free|
      {
        ghost var w := View();
        var left := Join(r, mbd);
        SameUseTwice(v, w, View());
        got := size[left];
        if needed != 0 && got >= needed {
          return;
        }
        mbd, r := FindPair();
      }
    }

    /** Second chance: merge free blocks and try again. */
    method AllocMerged(n: nat) returns (b: nat)
      requires Valid() && TooSmall(n)
      modifies this
      ensures Valid() && Touched(old(View()), View())
      ensures b == 0 <==> !old(Room(size, free, n))
      ensures b == 0 ==> SameUse(old(View()), View())
      ensures b != 0 ==> Allotted(old(View()), View(), n, b)
      ensures b != 0 && arena < WORD / 2 ==> size[b] <= n + 2 * D
    {
      ghost var v := View();
      b := 0;
      var got := Compact(n);
      ghost var w := View();
      SameRoom(v.size, v.free, w.size, w.free, n);
      if n == 0 || got < n {
        RoomIffBlock(w, n);
      } else {
        ghost var a :| a in free && size[a] == got;
        BlockIsRoom(w.size, w.free, a, n);
      }
      if got >= n {
        b := AllocFit(n);
        if b != 0 {
          AllottedAfter(v, w, View(), n, b);
        }
      }
    }

    /** Hand out a block of at least n bytes, if necessary after merging free blocks. */
    method AllocAny(n: nat) returns (b: nat)
      requires Valid()
      modifies this
      ensures Valid() && Touched(old(View()), View())
      ensures b == 0 <==> !old(Room(size, free, n))
      ensures b == 0 ==> SameUse(old(View()), View())
      ensures b != 0 ==> Allotted(old(View()), View(), n, b)
      ensures b != 0 && arena < WORD / 2 ==> size[b] <= n + 2 * D
      ensures b != 0 && !old(TooSmall(n)) ==> Lands(old(size), old(free), n, b)
    {
      b := AllocFit(n);
      if b == 0 {
        b := AllocMerged(n);
      } else {
        ghost var a :| a in old(free) && old(size)[a] >= n;
        BlockIsRoom(old(size), old(free), a, n);
      }
    }

    /** Hand out n bytes, rounded up to a multiple of 4. This fails exactly for n = 0 and when nowhere in the arena
        there are enough free bytes in a row, whatever blocks they are cut into. If there is a big enough block, the
        best or the worst fit is taken. */
    method Alloc(n: nat) returns (ptr: nat)
      requires Valid() && n < WORD
      modifies this
      ensures Valid() && Touched(old(View()), View())
      ensures ptr == 0 <==> n == 0 || !old(Room(size, free, Align(n)))
      ensures ptr == 0 ==> SameUse(old(View()), View())
      ensures ptr != 0 ==> ptr > D && Allotted(old(View()), View(), Align(n), ptr - D)
      ensures ptr != 0 ==> (size[ptr - D] >= n <==> n <= WORD - 4)
      ensures ptr != 0 && arena < WORD / 2 ==> size[ptr - D] <= Align(n) + 2 * D
      ensures ptr != 0 && !old(TooSmall(Align(n))) ==> Lands(old(size), old(free), Align(n), ptr - D)
    {
      if n == 0 {
        return 0;
      }
      var b := AllocAny(Align(n));
      ptr := if b != 0 then b + D else 0;
      if b != 0 {
        AllottedAddress(View(), b);
      }
    }
  }
}
