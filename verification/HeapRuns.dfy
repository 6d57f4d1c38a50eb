/**
 Whole runs of the heap: memory that was handed out belongs to its owner, and to nobody else, until it is freed.
 */
module HeapRuns {
  import opened Hiding
  import opened HeapLayout
  import opened HeapState
  import opened Heap

  datatype Op = AllocOp(n: nat) | FreeOp(ptr: nat) | CompactOp(needed: nat)

  /** At time t the memory handed out by operation i has not been freed. */
  ghost predicate Live(ops: seq<Op>, ptrs: seq<nat>, i: nat, t: nat)
    requires t <= |ops| && t <= |ptrs|
  {
    && i < t && ops[i].AllocOp? && ops[i].n < WORD && ptrs[i] != 0
    && forall k :: i < k < t ==> ops[k] != FreeOp(ptrs[i])
  }

  /** The block handed out at ptr for n bytes is in use and has the aligned size, which is at least n unless the
      alignment wraps. */
  ghost predicate Held(s: State, n: nat, ptr: nat)
    requires n < WORD
  {
    && ptr > D && ptr - D in s.used && ptr - D in s.size && s.size[ptr - D] >= Align(n)
    && (n <= WORD - 4 ==> s.size[ptr - D] >= n)
  }

  ghost predicate AllHeld(s: State, ops: seq<Op>, ptrs: seq<nat>, t: nat)
    requires t <= |ops| && t <= |ptrs|
  {
    && (forall i: nat {:trigger Live(ops, ptrs, i, t)} :: Live(ops, ptrs, i, t) ==> Held(s, ops[i].n, ptrs[i]))
    && (forall i: nat, j: nat {:trigger Live(ops, ptrs, i, t), Live(ops, ptrs, j, t)} ::
          i < j && Live(ops, ptrs, i, t) && Live(ops, ptrs, j, t) ==> ptrs[i] != ptrs[j])
  }

  /** What an operation may do to the blocks in use; ptr is what it returns. It writes nothing but descriptors. */
  ghost predicate Step(s: State, op: Op, ptr: nat, s': State)
    requires s.Ok() && s'.Ok()
  {
    && s'.base == s.base && s'.arena == s.arena && Touched(s, s')
    && match op
    case AllocOp(n) =>
      if ptr == 0 then SameUse(s, s') else n < WORD && ptr > D && Allotted(s, s', Align(n), ptr - D)
    case FreeOp(p) => s' == s || (p >= D && Freed(s, s', p - D))
    case CompactOp(_) => SameUse(s, s')
  }

  lemma StepHeld(s: State, s': State, ops: seq<Op>, ptrs: seq<nat>, t: nat)
    requires s.Ok() && s'.Ok() && t < |ops| && t < |ptrs| && AllHeld(s, ops, ptrs, t)
    requires Step(s, ops[t], ptrs[t], s')
    ensures AllHeld(s', ops, ptrs, t + 1)
  {
    forall i: nat | Live(ops, ptrs, i, t + 1)
      ensures Held(s', ops[i].n, ptrs[i])
      ensures i < t && ops[t].AllocOp? && ptrs[t] != 0 ==> ptrs[i] != ptrs[t]
    {
      if i < t {
        assert Live(ops, ptrs, i, t);
        assert ops[t] != FreeOp(ptrs[i]);
      }
    }
    forall i: nat, j: nat | i < j && Live(ops, ptrs, i, t + 1) && Live(ops, ptrs, j, t + 1)
      ensures ptrs[i] != ptrs[j]
    {
      if j < t {
        assert Live(ops, ptrs, i, t) && Live(ops, ptrs, j, t);
      }
    }
  }

  /** Different blocks in use have different bytes. */
  lemma HeldApart(s: State, n: nat, ptr: nat, m: nat, other: nat)
    requires s.Ok() && n < WORD && m < WORD && Held(s, n, ptr) && Held(s, m, other) && ptr != other
    ensures s.base + D <= ptr && ptr + Align(n) <= s.base + s.arena
    ensures ptr + Align(n) <= other - D || other + Align(m) <= ptr - D
  {
    ListedInOrder(s);
    assert Unfold(0);
    BlocksDisjoint(s.size, s.order, s.base, s.base + s.arena, ptr - D, other - D);
  }

  // ---- payloads ----

  /** Nothing was written into the payload of block b, and it has kept its size. */
  ghost predicate Unwritten(s: State, s': State, b: nat) {
    && b in s.size && b in s'.size && s'.size[b] == s.size[b]
    && forall x :: b < x < End(s.size, b) ==>
                     Same(s.next, s'.next, x) && Same(s.prev, s'.prev, x) && Same(s.size, s'.size, x)
  }

  /** Nothing was written into memory between its being handed out and time t, unless it was freed before; hist lists
      the heap before and after each operation. */
  ghost predicate AllUnwritten(hist: seq<State>, ops: seq<Op>, ptrs: seq<nat>, t: nat)
    requires t <= |ops| && t <= |ptrs| && t < |hist|
  {
    forall i: nat {:trigger Live(ops, ptrs, i, t)} ::
      Live(ops, ptrs, i, t) ==> ptrs[i] > D && Unwritten(hist[i + 1], hist[t], ptrs[i] - D)
  }

  /** An operation other than freeing it leaves a block in use, with its size and its payload. */
  lemma StepUnwritten(s: State, op: Op, ptr: nat, s': State, b: nat)
    requires s.Ok() && s'.Ok() && Step(s, op, ptr, s') && b in s.used && op != FreeOp(b + D)
    ensures b in s.size && b in s'.used && Unwritten(s, s', b)
  {
    ListedInOrder(s);
    ListedInOrder(s');
    forall x | b < x < End(s.size, b)
      ensures Same(s.next, s'.next, x) && Same(s.prev, s'.prev, x) && Same(s.size, s'.size, x)
    {
      PayloadUntouched(s, s', b, x);
    }
  }

  lemma UnwrittenTwice(s: State, s1: State, s2: State, b: nat)
    requires Unwritten(s, s1, b) && Unwritten(s1, s2, b)
    ensures Unwritten(s, s2, b)
  {
    forall x | b < x < End(s.size, b)
      ensures Same(s.next, s2.next, x) && Same(s.prev, s2.prev, x) && Same(s.size, s2.size, x)
    {
      assert Same(s.next, s1.next, x) && Same(s1.next, s2.next, x);
    }
  }

  lemma UnwrittenMore(hist: seq<State>, ops: seq<Op>, ptrs: seq<nat>, t: nat)
    requires t < |ops| && t < |ptrs| && t + 1 < |hist| && hist[t].Ok() && hist[t + 1].Ok()
    requires Step(hist[t], ops[t], ptrs[t], hist[t + 1])
    requires AllHeld(hist[t], ops, ptrs, t) && AllHeld(hist[t + 1], ops, ptrs, t + 1) && AllUnwritten(hist, ops, ptrs, t)
    ensures AllUnwritten(hist, ops, ptrs, t + 1)
  {
    forall i: nat | Live(ops, ptrs, i, t + 1)
      ensures ptrs[i] > D && Unwritten(hist[i + 1], hist[t + 1], ptrs[i] - D)
    {
      assert Held(hist[t + 1], ops[i].n, ptrs[i]);
      if i < t {
        assert Live(ops, ptrs, i, t);
        assert Held(hist[t], ops[i].n, ptrs[i]);
        StepUnwritten(hist[t], ops[t], ptrs[t], hist[t + 1], ptrs[i] - D);
        UnwrittenTwice(hist[i + 1], hist[t], hist[t + 1], ptrs[i] - D);
      }
    }
  }

  // ---- running ----

  method RunOne(h: Arena, op: Op) returns (ptr: nat)
    requires h.Valid() && (op.AllocOp? ==> op.n < WORD)
    modifies h
    ensures h.Valid() && Step(old(h.View()), op, ptr, h.View())
  {
    ptr := 0;
    match op {
      case AllocOp(n) => ptr := h.Alloc(n);
      case FreeOp(p) => var done := h.Free(p);
      case CompactOp(needed) => var got := h.Compact(needed);
    }
  }

  /** Carry out any sequence of operations. Whatever was handed out and not freed lies in the arena, is as big as was
      asked for unless that was more than 2^64 - 4 bytes, and overlaps nothing else handed out and not freed; and the heap
      has written nothing into it since. The states in hist, before and after each operation, tell what it has written. */
  method RunAll(h: Arena, ops: seq<Op>) returns (ptrs: seq<nat>, ghost hist: seq<State>)
    requires h.Valid() && forall i :: 0 <= i < |ops| && ops[i].AllocOp? ==> ops[i].n < WORD
    modifies h
    ensures h.Valid() && |ptrs| == |ops|
    ensures Ran(hist, ops, ptrs) && hist[0] == old(h.View()) && hist[|ops|] == h.View()
    ensures forall i: nat {:trigger Live(ops, ptrs, i, |ops|)} ::
              Live(ops, ptrs, i, |ops|) ==>
                Held(h.View(), ops[i].n, ptrs[i]) && Unwritten(hist[i + 1], h.View(), ptrs[i] - D)
    ensures forall i: nat, j: nat {:trigger Live(ops, ptrs, i, |ops|), Live(ops, ptrs, j, |ops|)} ::
              i != j && Live(ops, ptrs, i, |ops|) && Live(ops, ptrs, j, |ops|) ==>
                ptrs[i] + Align(ops[i].n) <= ptrs[j] - D || ptrs[j] + Align(ops[j].n) <= ptrs[i] - D
  {
    ptrs, hist := [], [h.View()];
    var t := 0;
    while t < |ops|
      invariant t <= |ops| && |ptrs| == t && h.Valid() && Ran(hist, ops[..t], ptrs)
      invariant hist[0] == old(h.View()) && hist[t] == h.View()
      invariant AllHeld(h.View(), ops, ptrs, t) && AllUnwritten(hist, ops, ptrs, t)
    {
      ghost var before, was := ptrs, hist;
      var ptr := RunOne(h, ops[t]);
      ptrs, hist := ptrs + [ptr], hist + [h.View()];
      Longer(was, hist, ops, before, ptrs, t);
      StepHeld(hist[t], hist[t + 1], ops, ptrs, t);
      UnwrittenMore(hist, ops, ptrs, t);
      assert ops[..t + 1] == ops[..t] + [ops[t]];
      t := t + 1;
    }
    assert ops[..t] == ops;
    forall i: nat, j: nat | i != j && Live(ops, ptrs, i, |ops|) && Live(ops, ptrs, j, |ops|)
      ensures ptrs[i] + Align(ops[i].n) <= ptrs[j] - D || ptrs[j] + Align(ops[j].n) <= ptrs[i] - D
    {
      HeldApart(h.View(), ops[i].n, ptrs[i], ops[j].n, ptrs[j]);
    }
  }

  /** hist lists the heap before and after each operation. */
  ghost predicate Ran(hist: seq<State>, ops: seq<Op>, ptrs: seq<nat>) {
    && |hist| == |ops| + 1 && |ptrs| == |ops|
    && (forall t :: 0 <= t < |hist| ==> hist[t].Ok())
    && forall t :: 0 <= t < |ops| ==> Step(hist[t], ops[t], ptrs[t], hist[t + 1])
  }

  lemma Longer(hist: seq<State>, hist': seq<State>, ops: seq<Op>, ptrs: seq<nat>, ptrs': seq<nat>, t: nat)
    requires t <= |ops| && t == |ptrs| && ptrs <= ptrs' && t + 1 == |hist| && hist <= hist'
    requires AllHeld(hist[t], ops, ptrs, t) && AllUnwritten(hist, ops, ptrs, t)
    ensures AllHeld(hist'[t], ops, ptrs', t) && AllUnwritten(hist', ops, ptrs', t)
  {
    assert hist'[t] == hist[t];
    forall i: nat | Live(ops, ptrs', i, t) ensures Live(ops, ptrs, i, t) && ptrs'[i] == ptrs[i] {
    }
  }

  /** A request for 2^64 - 1 bytes is rounded to 0 bytes: any fresh arena, however small, grants it. */
  method Oversized(base: nat, arena: nat) returns (h: Arena, ptr: nat)
    requires base > 0 && D <= arena && base + arena <= WORD
    ensures h.Valid() && h.base == base && h.arena == arena
    ensures ptr > D && ptr - D in h.used && ptr - D in h.size && h.size[ptr - D] < WORD - 1
  {
    h := new Arena(base, arena);
    assert RoomAt(h.size, h.free, base, 0);
    assert Align(WORD - 1) == 0;
    ptr := h.Alloc(WORD - 1);
  }
}
